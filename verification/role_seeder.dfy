/** `RoleSeeder`: makes sure the `admin` and `user` roles exist. */
module RoleSeeder {
  import opened Schema
  import opened Seeding

  function SlugOf(r: Role): string {
    r.slug
  }

  function Stamp(r: Role, id: int): Role {
    r.(id := id)
  }

  /** The two roles to seed, timestamped `now`. */
  function Templates(now: int): seq<Role> {
    [Role(0, "Admin", "admin", "Administrator role", now, now),
     Role(0, "User", "user", "Standard user role", now, now)]
  }

  predicate IsTemplateRow(r: Role) {
    || (r.name, r.slug, r.description) == ("Admin", "admin", "Administrator role")
    || (r.name, r.slug, r.description) == ("User", "user", "Standard user role")
  }

  lemma StampOk(now: int)
    ensures StampKeepsSlug(SlugOf, Stamp, Templates(now))
  {
    forall k, id | 0 <= k < |Templates(now)| ensures SlugOf(Stamp(Templates(now)[k], id)) == SlugOf(Templates(now)[k]) {
    }
  }

  /** One run: never modifies or deletes a row, adds at most two. */
  function Run(t: Table<Role>, now: int): (r: Table<Role>)
    ensures |t.rows| <= |r.rows| <= |t.rows| + 2 && r.rows[..|t.rows|] == t.rows
  {
    SeedAll(t, SlugOf, Stamp, Templates(now))
  }

  /** Afterwards both roles exist. */
  lemma RunCovers(t: Table<Role>, now: int)
    ensures HasSlug(Run(t, now).rows, SlugOf, "admin") && HasSlug(Run(t, now).rows, SlugOf, "user")
  {
    StampOk(now);
    SeedAllCovers(t, SlugOf, Stamp, Templates(now));
    assert SlugOf(Templates(now)[0]) == "admin" && SlugOf(Templates(now)[1]) == "user";
  }

  /** Every created row carries exactly a listed name, slug and description,
      and the next id. */
  lemma RunCreates(t: Table<Role>, now: int)
    ensures forall i :: |t.rows| <= i < |Run(t, now).rows| ==>
      IsTemplateRow(Run(t, now).rows[i]) && Run(t, now).rows[i].id == t.nextId + (i - |t.rows|)
  {
    SeedAllAdds(t, SlugOf, Stamp, Templates(now));
    forall i | |t.rows| <= i < |Run(t, now).rows|
      ensures IsTemplateRow(Run(t, now).rows[i]) && Run(t, now).rows[i].id == t.nextId + (i - |t.rows|)
    {
      var k :| 0 <= k < |Templates(now)| && Run(t, now).rows[i] == Stamp(Templates(now)[k], t.nextId + (i - |t.rows|));
    }
  }

  /** When both slugs are present, the run writes nothing. */
  lemma PresentNoWrite(t: Table<Role>, now: int)
    requires HasSlug(t.rows, SlugOf, "admin") && HasSlug(t.rows, SlugOf, "user")
    ensures Run(t, now) == t
  {
    SeedAllNoop(t, SlugOf, Stamp, Templates(now));
  }

  /** A second run, at any time, writes nothing. */
  lemma RunIdempotent(t: Table<Role>, now: int, later: int)
    ensures Run(Run(t, now), later) == Run(t, now)
  {
    RunCovers(t, now);
    PresentNoWrite(Run(t, now), later);
  }
}
