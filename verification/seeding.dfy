/** `Seeding`: the check-before-insert loop the module and role seeders
    share. For each template row, `findFirst({ where: { slug } })`; when
    nothing is found, `create` the row under the next id. */
module Seeding {
  import opened Schema

  /** Some row carries this slug. */
  predicate HasSlug<T>(rows: seq<T>, slugOf: T -> string, s: string) {
    exists i :: 0 <= i < |rows| && slugOf(rows[i]) == s
  }

  /** Giving a template its id does not change its slug. */
  ghost predicate StampKeepsSlug<T>(slugOf: T -> string, stamp: (T, int) -> T, xs: seq<T>) {
    forall k, id :: 0 <= k < |xs| ==> slugOf(stamp(xs[k], id)) == slugOf(xs[k])
  }

  /** One iteration: no write when the slug is present, otherwise one row. */
  function SeedOne<T>(t: Table<T>, slugOf: T -> string, stamp: (T, int) -> T, x: T): (r: Table<T>)
    ensures HasSlug(t.rows, slugOf, slugOf(x)) ==> r == t
    ensures !HasSlug(t.rows, slugOf, slugOf(x)) ==> r.rows == t.rows + [stamp(x, t.nextId)] && r.nextId == t.nextId + 1
  {
    if HasSlug(t.rows, slugOf, slugOf(x)) then t else Append(t, stamp(x, t.nextId))
  }

  /** The whole loop, templates in order. It never modifies or deletes a
      row and adds at most one row per template. */
  function SeedAll<T>(t: Table<T>, slugOf: T -> string, stamp: (T, int) -> T, xs: seq<T>): (r: Table<T>)
    decreases |xs|
    ensures |t.rows| <= |r.rows| <= |t.rows| + |xs| && r.rows[..|t.rows|] == t.rows
    ensures r.nextId == t.nextId + (|r.rows| - |t.rows|)
  {
    if |xs| == 0 then t
    else
      var t1 := SeedOne(t, slugOf, stamp, xs[0]);
      var r := SeedAll(t1, slugOf, stamp, xs[1..]);
      assert r.rows[..|t.rows|] == r.rows[..|t1.rows|][..|t.rows|];
      r
  }

  /** Every row of `r` past the rows of `t` is a template under the id it
      was created with. */
  ghost predicate AddedFrom<T>(t: Table<T>, r: Table<T>, stamp: (T, int) -> T, xs: seq<T>) {
    forall i :: |t.rows| <= i < |r.rows| ==>
      exists k :: 0 <= k < |xs| && r.rows[i] == stamp(xs[k], t.nextId + (i - |t.rows|))
  }

  /** Every added row is a template under the id it was created with. */
  lemma {:induction false} SeedAllAdds<T>(t: Table<T>, slugOf: T -> string, stamp: (T, int) -> T, xs: seq<T>)
    ensures AddedFrom(t, SeedAll(t, slugOf, stamp, xs), stamp, xs)
    decreases |xs|
  {
    if |xs| > 0 {
      var t1 := SeedOne(t, slugOf, stamp, xs[0]);
      var r := SeedAll(t1, slugOf, stamp, xs[1..]);
      SeedAllAdds(t1, slugOf, stamp, xs[1..]);
      forall i | |t.rows| <= i < |r.rows|
        ensures exists k :: 0 <= k < |xs| && r.rows[i] == stamp(xs[k], t.nextId + (i - |t.rows|))
      {
        if i < |t1.rows| {
          assert r.rows[i] == r.rows[..|t1.rows|][i] == t1.rows[i];
        } else {
          var k :| 0 <= k < |xs[1..]| && r.rows[i] == stamp(xs[1..][k], t1.nextId + (i - |t1.rows|));
          assert t1.nextId + (i - |t1.rows|) == t.nextId + (i - |t.rows|);
          assert r.rows[i] == stamp(xs[k + 1], t.nextId + (i - |t.rows|));
        }
      }
    }
  }

  /** Afterwards every template's slug is present. */
  lemma {:induction false} SeedAllCovers<T>(t: Table<T>, slugOf: T -> string, stamp: (T, int) -> T, xs: seq<T>)
    requires StampKeepsSlug(slugOf, stamp, xs)
    ensures forall k :: 0 <= k < |xs| ==> HasSlug(SeedAll(t, slugOf, stamp, xs).rows, slugOf, slugOf(xs[k]))
    decreases |xs|
  {
    if |xs| > 0 {
      var t1 := SeedOne(t, slugOf, stamp, xs[0]);
      var r := SeedAll(t1, slugOf, stamp, xs[1..]);
      assert StampKeepsSlug(slugOf, stamp, xs[1..]) by {
        forall k, id | 0 <= k < |xs[1..]| ensures slugOf(stamp(xs[1..][k], id)) == slugOf(xs[1..][k]) {
          assert xs[1..][k] == xs[k + 1];
        }
      }
      SeedAllCovers(t1, slugOf, stamp, xs[1..]);
      assert HasSlug(t1.rows, slugOf, slugOf(xs[0])) by {
        if !HasSlug(t.rows, slugOf, slugOf(xs[0])) {
          assert slugOf(t1.rows[|t.rows|]) == slugOf(xs[0]);
        }
      }
      HasSlugPrefix(t1.rows, r.rows, slugOf, slugOf(xs[0]));
      forall k | 0 <= k < |xs| ensures HasSlug(r.rows, slugOf, slugOf(xs[k])) {
        if k > 0 {
          assert xs[k] == xs[1..][k - 1];
        }
      }
    }
  }

  /** A slug present in a prefix is present in the whole. */
  lemma HasSlugPrefix<T>(a: seq<T>, b: seq<T>, slugOf: T -> string, s: string)
    requires |a| <= |b| && b[..|a|] == a && HasSlug(a, slugOf, s)
    ensures HasSlug(b, slugOf, s)
  {
    var i :| 0 <= i < |a| && slugOf(a[i]) == s;
    assert b[i] == a[i];
  }

  /** When every template's slug is already present, the loop writes nothing. */
  lemma {:induction false} SeedAllNoop<T>(t: Table<T>, slugOf: T -> string, stamp: (T, int) -> T, xs: seq<T>)
    requires forall k :: 0 <= k < |xs| ==> HasSlug(t.rows, slugOf, slugOf(xs[k]))
    ensures SeedAll(t, slugOf, stamp, xs) == t
    decreases |xs|
  {
    if |xs| > 0 {
      assert SeedOne(t, slugOf, stamp, xs[0]) == t;
      forall k | 0 <= k < |xs[1..]| ensures HasSlug(t.rows, slugOf, slugOf(xs[1..][k])) {
        assert xs[1..][k] == xs[k + 1];
      }
      SeedAllNoop(t, slugOf, stamp, xs[1..]);
    }
  }

  /** Running the loop twice is running it once. */
  lemma SeedAllIdempotent<T>(t: Table<T>, slugOf: T -> string, stamp: (T, int) -> T, xs: seq<T>)
    requires StampKeepsSlug(slugOf, stamp, xs)
    ensures SeedAll(SeedAll(t, slugOf, stamp, xs), slugOf, stamp, xs) == SeedAll(t, slugOf, stamp, xs)
  {
    SeedAllCovers(t, slugOf, stamp, xs);
    SeedAllNoop(SeedAll(t, slugOf, stamp, xs), slugOf, stamp, xs);
  }
}
