/** `PermissionSeeder`: for every module and each of the four actions, make
    sure a permission `<action>-<module slug>` exists for that module. An
    existing combined-slug row is left alone; a legacy row whose slug is the
    bare action slug is renamed in place; otherwise a row is created. */
module PermissionSeeder {
  import opened Wrappers
  import opened Schema
  import opened Collections

  datatype Action = Action(name: string, slug: string)

  const Actions: seq<Action> := [Action("Create", "create"), Action("Read", "read"), Action("Update", "update"), Action("Delete", "delete")]

  /** One iteration of the nested loop: a module and an action. */
  datatype Step = Step(owner: Module, action: Action)

  function CombinedSlug(a: Action, m: Module): string {
    a.slug + "-" + m.slug
  }

  function PermissionName(m: Module, a: Action): string {
    m.name + " " + a.name
  }

  function PermissionDescription(m: Module, a: Action): string {
    a.name + " " + m.name
  }

  /** Some permission of module `moduleId` has this slug. */
  predicate HasPermission(rows: seq<Permission>, slug: string, moduleId: int) {
    exists i :: 0 <= i < |rows| && rows[i].slug == slug && rows[i].moduleId == moduleId
  }

  /** A row as the seeder writes it for module `m` and action `a`, whether
      created or migrated. */
  predicate Generated(p: Permission, m: Module, a: Action) {
    && p.name == PermissionName(m, a)
    && p.slug == CombinedSlug(a, m)
    && p.description == PermissionDescription(m, a)
    && p.moduleId == m.id
  }

  /** The iterations of `for (mod of modules) for (action of actions)`, in order. */
  function Steps(modules: seq<Module>): (r: seq<Step>)
    ensures |r| == 4 * |modules|
    ensures forall j, k :: 0 <= j < |modules| && 0 <= k < 4 ==> r[4 * j + k] == Step(modules[j], Actions[k])
  {
    seq(4 * |modules|, n requires 0 <= n < 4 * |modules| => Step(modules[n / 4], Actions[n % 4]))
  }

  /** A row the iteration may migrate: the bare action slug, in its module. */
  predicate IsLegacy(p: Permission, s: Step) {
    p.slug == s.action.slug && p.moduleId == s.owner.id
  }

  /** The iteration finds no combined-slug row for its module, but a legacy one. */
  predicate Migrates(rows: seq<Permission>, s: Step) {
    !HasPermission(rows, CombinedSlug(s.action, s.owner), s.owner.id) && HasPermission(rows, s.action.slug, s.owner.id)
  }

  /** Row `i` is the first legacy row of the iteration, and it alone was
      rewritten, in place and under its id, as the iteration writes it. */
  ghost predicate MigratedAt(t: Table<Permission>, r: Table<Permission>, s: Step, i: int) {
    && 0 <= i < |t.rows| && |r.rows| == |t.rows|
    && IsLegacy(t.rows[i], s)
    && (forall j :: 0 <= j < i ==> !IsLegacy(t.rows[j], s))
    && r.rows[i].id == t.rows[i].id && Generated(r.rows[i], s.owner, s.action)
    && (forall j :: 0 <= j < |t.rows| && j != i ==> r.rows[j] == t.rows[j])
  }

  /** One inner iteration. The update is by primary key, so it touches the
      one row found. */
  function SeedStep(t: Table<Permission>, s: Step): (r: Table<Permission>)
    ensures HasPermission(t.rows, CombinedSlug(s.action, s.owner), s.owner.id) ==> r == t
    ensures Migrates(t.rows, s) ==> r.nextId == t.nextId && exists i :: MigratedAt(t, r, s, i)
    ensures !HasPermission(t.rows, CombinedSlug(s.action, s.owner), s.owner.id) && !HasPermission(t.rows, s.action.slug, s.owner.id) ==>
      |r.rows| == |t.rows| + 1
    ensures HasPermission(r.rows, CombinedSlug(s.action, s.owner), s.owner.id)
    ensures |t.rows| <= |r.rows| <= |t.rows| + 1
    ensures r.nextId == t.nextId + (|r.rows| - |t.rows|)
    ensures |r.rows| > |t.rows| ==> r.rows[|t.rows|].id == t.nextId
    ensures forall i :: 0 <= i < |t.rows| ==> r.rows[i].id == t.rows[i].id && r.rows[i].moduleId == t.rows[i].moduleId
    ensures forall i :: 0 <= i < |t.rows| && !IsLegacy(t.rows[i], s) ==> r.rows[i] == t.rows[i]
    ensures forall i :: 0 <= i < |r.rows| && (i >= |t.rows| || r.rows[i] != t.rows[i]) ==> Generated(r.rows[i], s.owner, s.action)
  {
    var (m, a) := (s.owner, s.action);
    var combined := CombinedSlug(a, m);
    if FirstMatch(t.rows, (p: Permission) => p.slug == combined && p.moduleId == m.id).Some? then t
    else
      match FirstIndex(t.rows, (p: Permission) => p.slug == a.slug && p.moduleId == m.id)
      case Some(i) =>
        var migrated := t.rows[i].(name := PermissionName(m, a), slug := combined, description := PermissionDescription(m, a));
        assert t.rows[i := migrated][i] == migrated;
        assert MigratedAt(t, Table(t.rows[i := migrated], t.nextId), s, i);
        Table(t.rows[i := migrated], t.nextId)
      case None =>
        var created := Permission(t.nextId, PermissionName(m, a), combined, PermissionDescription(m, a), m.id);
        assert Append(t, created).rows[|t.rows|] == created;
        Append(t, created)
  }

  /** The loop over a sequence of iterations. */
  function SeedSteps(t: Table<Permission>, steps: seq<Step>): (r: Table<Permission>)
    decreases |steps|
    ensures |t.rows| <= |r.rows| <= |t.rows| + |steps|
    ensures r.nextId == t.nextId + (|r.rows| - |t.rows|)
    ensures forall i :: 0 <= i < |t.rows| ==> r.rows[i].id == t.rows[i].id && r.rows[i].moduleId == t.rows[i].moduleId
  {
    if |steps| == 0 then t else SeedSteps(SeedStep(t, steps[0]), steps[1..])
  }

  /** `PermissionSeeder`, over the modules read at its start. */
  function Run(t: Table<Permission>, modules: seq<Module>): (r: Table<Permission>)
    ensures |t.rows| <= |r.rows| <= |t.rows| + 4 * |modules|
    ensures forall i :: 0 <= i < |t.rows| ==> r.rows[i].id == t.rows[i].id && r.rows[i].moduleId == t.rows[i].moduleId
  {
    SeedSteps(t, Steps(modules))
  }

  // ---- properties of the loop ----

  /** The slug is one the given iterations may migrate. */
  predicate MigratableSlug(slug: string, steps: seq<Step>) {
    exists k :: 0 <= k < |steps| && steps[k].action.slug == slug
  }

  /** Action slugs carry no dash, so they never collide with a combined slug. */
  predicate PlainActions(steps: seq<Step>) {
    forall k :: 0 <= k < |steps| ==> '-' !in steps[k].action.slug
  }

  /** Every iteration's permission exists in `rows`. */
  ghost predicate Covers(rows: seq<Permission>, steps: seq<Step>) {
    forall k :: 0 <= k < |steps| ==> HasPermission(rows, CombinedSlug(steps[k].action, steps[k].owner), steps[k].owner.id)
  }

  /** Every row that was added or changed is written as some iteration writes it. */
  ghost predicate WrittenBy(t: Table<Permission>, r: Table<Permission>, steps: seq<Step>) {
    forall i :: 0 <= i < |r.rows| && (i >= |t.rows| || r.rows[i] != t.rows[i]) ==>
      exists k :: 0 <= k < |steps| && Generated(r.rows[i], steps[k].owner, steps[k].action)
  }

  lemma CombinedHasDash(a: Action, m: Module)
    ensures '-' in CombinedSlug(a, m)
  {
    assert CombinedSlug(a, m)[|a.slug|] == '-';
  }

  /** A row whose slug no iteration may migrate is never changed. */
  lemma {:induction false} UntouchedRows(t: Table<Permission>, steps: seq<Step>)
    ensures forall i :: 0 <= i < |t.rows| && !MigratableSlug(t.rows[i].slug, steps) ==> SeedSteps(t, steps).rows[i] == t.rows[i]
    decreases |steps|
  {
    if |steps| > 0 {
      var t1 := SeedStep(t, steps[0]);
      UntouchedRows(t1, steps[1..]);
      forall i | 0 <= i < |t.rows| && !MigratableSlug(t.rows[i].slug, steps)
        ensures SeedSteps(t, steps).rows[i] == t.rows[i]
      {
        assert t1.rows[i] == t.rows[i];
        forall k | 0 <= k < |steps[1..]| ensures steps[1..][k].action.slug != t.rows[i].slug {
          assert steps[1..][k] == steps[k + 1];
        }
      }
    }
  }

  /** Every added or changed row has the name, slug, description and module
      of one of the iterations. */
  lemma {:induction false} RowsWritten(t: Table<Permission>, steps: seq<Step>)
    ensures WrittenBy(t, SeedSteps(t, steps), steps)
    decreases |steps|
  {
    if |steps| > 0 {
      var t1 := SeedStep(t, steps[0]);
      var r := SeedSteps(t1, steps[1..]);
      RowsWritten(t1, steps[1..]);
      forall i | 0 <= i < |r.rows| && (i >= |t.rows| || r.rows[i] != t.rows[i])
        ensures exists k :: 0 <= k < |steps| && Generated(r.rows[i], steps[k].owner, steps[k].action)
      {
        if i >= |t1.rows| || r.rows[i] != t1.rows[i] {
          var k :| 0 <= k < |steps[1..]| && Generated(r.rows[i], steps[1..][k].owner, steps[1..][k].action);
          assert steps[1..][k] == steps[k + 1];
        } else {
          assert Generated(r.rows[i], steps[0].owner, steps[0].action);
        }
      }
    }
  }

  /** One iteration keeps every combined-slug permission already present. */
  lemma StepKeeps(t: Table<Permission>, s: Step, slug: string, moduleId: int)
    requires '-' !in s.action.slug && '-' in slug
    requires HasPermission(t.rows, slug, moduleId)
    ensures HasPermission(SeedStep(t, s).rows, slug, moduleId)
  {
    var i :| 0 <= i < |t.rows| && t.rows[i].slug == slug && t.rows[i].moduleId == moduleId;
    assert SeedStep(t, s).rows[i] == t.rows[i];
  }

  /** Afterwards every iteration's permission exists. */
  lemma {:induction false} Completeness(t: Table<Permission>, steps: seq<Step>)
    requires PlainActions(steps)
    ensures Covers(SeedSteps(t, steps).rows, steps)
    decreases |steps|
  {
    if |steps| > 0 {
      var t1 := SeedStep(t, steps[0]);
      var r := SeedSteps(t1, steps[1..]);
      assert PlainActions(steps[1..]) by {
        forall k | 0 <= k < |steps[1..]| ensures '-' !in steps[1..][k].action.slug {
          assert steps[1..][k] == steps[k + 1];
        }
      }
      Completeness(t1, steps[1..]);
      CombinedHasDash(steps[0].action, steps[0].owner);
      KeepsAlong(t1, steps[1..], CombinedSlug(steps[0].action, steps[0].owner), steps[0].owner.id);
      forall k | 0 <= k < |steps|
        ensures HasPermission(r.rows, CombinedSlug(steps[k].action, steps[k].owner), steps[k].owner.id)
      {
        if k > 0 {
          assert steps[k] == steps[1..][k - 1];
        }
      }
    }
  }

  /** The whole loop keeps every combined-slug permission already present. */
  lemma {:induction false} KeepsAlong(t: Table<Permission>, steps: seq<Step>, slug: string, moduleId: int)
    requires PlainActions(steps) && '-' in slug
    requires HasPermission(t.rows, slug, moduleId)
    ensures HasPermission(SeedSteps(t, steps).rows, slug, moduleId)
    decreases |steps|
  {
    if |steps| > 0 {
      StepKeeps(t, steps[0], slug, moduleId);
      assert PlainActions(steps[1..]) by {
        forall k | 0 <= k < |steps[1..]| ensures '-' !in steps[1..][k].action.slug {
          assert steps[1..][k] == steps[k + 1];
        }
      }
      KeepsAlong(SeedStep(t, steps[0]), steps[1..], slug, moduleId);
    }
  }

  /** The iteration finds its permission, or a legacy row to migrate. */
  predicate Ready(rows: seq<Permission>, s: Step) {
    HasPermission(rows, CombinedSlug(s.action, s.owner), s.owner.id) || HasPermission(rows, s.action.slug, s.owner.id)
  }

  /** No two iterations share a module id and an action slug. */
  predicate DistinctKeys(steps: seq<Step>) {
    forall k, l :: 0 <= k < l < |steps| ==>
      steps[k].owner.id != steps[l].owner.id || steps[k].action.slug != steps[l].action.slug
  }

  /** An iteration for another module or action leaves a ready iteration ready. */
  lemma StepKeepsReady(t: Table<Permission>, s0: Step, s: Step)
    requires '-' !in s0.action.slug
    requires s0.owner.id != s.owner.id || s0.action.slug != s.action.slug
    requires Ready(t.rows, s)
    ensures Ready(SeedStep(t, s0).rows, s)
  {
    if HasPermission(t.rows, CombinedSlug(s.action, s.owner), s.owner.id) {
      CombinedHasDash(s.action, s.owner);
      StepKeeps(t, s0, CombinedSlug(s.action, s.owner), s.owner.id);
    } else {
      var i :| 0 <= i < |t.rows| && t.rows[i].slug == s.action.slug && t.rows[i].moduleId == s.owner.id;
      assert !IsLegacy(t.rows[i], s0);
      assert SeedStep(t, s0).rows[i] == t.rows[i];
    }
  }

  /** When every iteration is ready and no two iterations compete for a
      legacy row, the loop migrates in place and adds no row. */
  lemma {:induction false} MigratesInPlace(t: Table<Permission>, steps: seq<Step>)
    requires PlainActions(steps) && DistinctKeys(steps)
    requires forall k :: 0 <= k < |steps| ==> Ready(t.rows, steps[k])
    ensures |SeedSteps(t, steps).rows| == |t.rows|
    ensures SeedSteps(t, steps).nextId == t.nextId
    decreases |steps|
  {
    if |steps| > 0 {
      var t1 := SeedStep(t, steps[0]);
      assert |t1.rows| == |t.rows|;
      var rest := steps[1..];
      forall k | 0 <= k < |rest| ensures Ready(t1.rows, rest[k]) && '-' !in rest[k].action.slug {
        assert rest[k] == steps[k + 1];
        StepKeepsReady(t, steps[0], steps[k + 1]);
      }
      forall k, l | 0 <= k < l < |rest|
        ensures rest[k].owner.id != rest[l].owner.id || rest[k].action.slug != rest[l].action.slug
      {
        assert rest[k] == steps[k + 1] && rest[l] == steps[l + 1];
      }
      MigratesInPlace(t1, rest);
    }
  }

  /** When every iteration's permission already exists, the loop writes nothing. */
  lemma {:induction false} NoopWhenCovered(t: Table<Permission>, steps: seq<Step>)
    requires Covers(t.rows, steps)
    ensures SeedSteps(t, steps) == t
    decreases |steps|
  {
    if |steps| > 0 {
      assert SeedStep(t, steps[0]) == t;
      forall k | 0 <= k < |steps[1..]|
        ensures HasPermission(t.rows, CombinedSlug(steps[1..][k].action, steps[1..][k].owner), steps[1..][k].owner.id)
      {
        assert steps[1..][k] == steps[k + 1];
      }
      NoopWhenCovered(t, steps[1..]);
    }
  }

  // ---- the seeder's promises, over its modules and the four actions ----

  /** The action of the `n`-th iteration. */
  lemma StepAction(modules: seq<Module>, n: int)
    requires 0 <= n < |Steps(modules)|
    ensures 0 <= n % 4 < |Actions| && Steps(modules)[n].action == Actions[n % 4]
  {
    var j, k := n / 4, n % 4;
    assert n == 4 * j + k;
  }

  /** The module and action of the `n`-th iteration. */
  lemma StepOf(modules: seq<Module>, n: int) returns (j: int, k: int)
    requires 0 <= n < |Steps(modules)|
    ensures 0 <= j < |modules| && 0 <= k < |Actions| && n == 4 * j + k
    ensures Steps(modules)[n] == Step(modules[j], Actions[k])
  {
    j, k := n / 4, n % 4;
    assert n == 4 * j + k;
  }

  lemma ActionSlugListed(k: int)
    requires 0 <= k < |Actions|
    ensures '-' !in Actions[k].slug
    ensures Actions[k].slug in ["create", "read", "update", "delete"]
  {
    if k == 0 {
      assert Actions[0].slug == "create";
    } else if k == 1 {
      assert Actions[1].slug == "read";
    } else if k == 2 {
      assert Actions[2].slug == "update";
    } else {
      assert Actions[3].slug == "delete";
    }
  }

  lemma ActionsPlain(modules: seq<Module>)
    ensures PlainActions(Steps(modules))
  {
    var steps := Steps(modules);
    forall n | 0 <= n < |steps| ensures '-' !in steps[n].action.slug {
      StepAction(modules, n);
      ActionSlugListed(n % 4);
    }
  }

  /** After a run, every module has all four `<action>-<slug>` permissions. */
  lemma RunComplete(t: Table<Permission>, modules: seq<Module>)
    ensures forall j, k :: 0 <= j < |modules| && 0 <= k < |Actions| ==>
      HasPermission(Run(t, modules).rows, CombinedSlug(Actions[k], modules[j]), modules[j].id)
  {
    ActionsPlain(modules);
    Completeness(t, Steps(modules));
    forall j, k | 0 <= j < |modules| && 0 <= k < |Actions|
      ensures HasPermission(Run(t, modules).rows, CombinedSlug(Actions[k], modules[j]), modules[j].id)
    {
      assert Steps(modules)[4 * j + k] == Step(modules[j], Actions[k]);
    }
  }

  /** Rows whose slug is not a bare action slug, the combined-slug rows
      among them, are never changed. */
  lemma RunKeepsOtherRows(t: Table<Permission>, modules: seq<Module>)
    ensures forall i :: 0 <= i < |t.rows| && t.rows[i].slug !in ["create", "read", "update", "delete"] ==>
      Run(t, modules).rows[i] == t.rows[i]
  {
    UntouchedRows(t, Steps(modules));
    forall i | 0 <= i < |t.rows| && t.rows[i].slug !in ["create", "read", "update", "delete"]
      ensures !MigratableSlug(t.rows[i].slug, Steps(modules))
    {
      forall n | 0 <= n < |Steps(modules)| ensures Steps(modules)[n].action.slug != t.rows[i].slug {
        StepAction(modules, n);
        ActionSlugListed(n % 4);
      }
    }
  }

  /** A created or migrated row is named `"<module> <action>"`, described
      `"<action> <module>"`, slugged `<action>-<module slug>` and belongs to
      that module. */
  lemma RunWritesFormat(t: Table<Permission>, modules: seq<Module>)
    ensures var r := Run(t, modules);
      forall i :: 0 <= i < |r.rows| && (i >= |t.rows| || r.rows[i] != t.rows[i]) ==>
        exists j, k :: 0 <= j < |modules| && 0 <= k < |Actions| && Generated(r.rows[i], modules[j], Actions[k])
  {
    var r := Run(t, modules);
    RowsWritten(t, Steps(modules));
    forall i | 0 <= i < |r.rows| && (i >= |t.rows| || r.rows[i] != t.rows[i])
      ensures exists j, k :: 0 <= j < |modules| && 0 <= k < |Actions| && Generated(r.rows[i], modules[j], Actions[k])
    {
      var n :| 0 <= n < |Steps(modules)| && Generated(r.rows[i], Steps(modules)[n].owner, Steps(modules)[n].action);
      var j, k := StepOf(modules, n);
      assert Generated(r.rows[i], modules[j], Actions[k]);
    }
  }

  /** Distinct actions have distinct slugs. */
  lemma ActionSlugsDistinct(k: int, l: int)
    requires 0 <= k < |Actions| && 0 <= l < |Actions| && k != l
    ensures Actions[k].slug != Actions[l].slug
  {
    ActionSlugListed(k);
    ActionSlugListed(l);
    assert Actions[k].slug[0] != Actions[l].slug[0];
  }

  /** Over modules with distinct ids, iterations never share a module id and
      an action slug. */
  lemma StepsDistinct(modules: seq<Module>)
    requires forall j, j' :: 0 <= j < j' < |modules| ==> modules[j].id != modules[j'].id
    ensures DistinctKeys(Steps(modules))
  {
    var steps := Steps(modules);
    forall n, n' | 0 <= n < n' < |steps|
      ensures steps[n].owner.id != steps[n'].owner.id || steps[n].action.slug != steps[n'].action.slug
    {
      var j, k := StepOf(modules, n);
      var j', k' := StepOf(modules, n');
      if j == j' {
        ActionSlugsDistinct(k, k');
      } else {
        assert j < j';
      }
    }
  }

  /** The legacy rename at the level of the run: when every module already
      holds, for each action, either its `<action>-<slug>` permission or a
      legacy row with the bare action slug, the legacy rows are renamed in
      place and no row is added. Module ids are distinct, as primary keys. */
  lemma RunMigratesInPlace(t: Table<Permission>, modules: seq<Module>)
    requires forall j, j' :: 0 <= j < j' < |modules| ==> modules[j].id != modules[j'].id
    requires forall j, k :: 0 <= j < |modules| && 0 <= k < |Actions| ==> Ready(t.rows, Step(modules[j], Actions[k]))
    ensures |Run(t, modules).rows| == |t.rows| && Run(t, modules).nextId == t.nextId
  {
    var steps := Steps(modules);
    ActionsPlain(modules);
    StepsDistinct(modules);
    forall n | 0 <= n < |steps| ensures Ready(t.rows, steps[n]) {
      var j, k := StepOf(modules, n);
    }
    MigratesInPlace(t, steps);
  }

  /** Running the seeder twice over the same modules is running it once. */
  lemma RunIdempotent(t: Table<Permission>, modules: seq<Module>)
    ensures Run(Run(t, modules), modules) == Run(t, modules)
  {
    ActionsPlain(modules);
    Completeness(t, Steps(modules));
    NoopWhenCovered(Run(t, modules), Steps(modules));
  }
}
