/** `Listing`: the shape every paginated listing shares. The repository
    builds a filter and an optional ordering; the same filter serves the
    count and the page fetch. */
module Listing {
  import opened Wrappers
  import opened Collections
  import opened Ordering
  import Paginate

  /** An `orderBy` resolved to the column it reads and its direction. */
  datatype Order<!T> = Order(key: T -> SortKey, direction: Direction)

  /** The rows `keep` accepts, in the order asked for. Without an ordering
      the store's own order is unspecified; table order stands in. */
  function Select<T>(rows: seq<T>, keep: T -> bool, order: Option<Order<T>>): (r: seq<T>)
    ensures order.Some? ==> Sorted(r, order.value.key, order.value.direction)
    ensures multiset(r) == multiset(Filter(rows, keep))
  {
    var matching := Filter(rows, keep);
    match order
    case None => matching
    case Some(o) => SortBy(matching, o.key, o.direction)
  }

  /** The selection counts exactly the accepted rows. */
  lemma SelectLength<T>(rows: seq<T>, keep: T -> bool, order: Option<Order<T>>)
    ensures |Select(rows, keep, order)| == |Filter(rows, keep)|
  {
    assert |multiset(Select(rows, keep, order))| == |multiset(Filter(rows, keep))|;
  }

  /** Filtering a sorted sequence keeps it sorted. */
  lemma {:induction false} FilterSorted<T>(s: seq<T>, p: T -> bool, key: T -> SortKey, d: Direction)
    requires Sorted(s, key, d)
    ensures Sorted(Filter(s, p), key, d)
  {
    if |s| > 0 {
      var rest := Filter(s[1..], p);
      FilterSorted(s[1..], p, key, d);
      if p(s[0]) {
        forall j | 0 <= j < |rest| ensures InOrder(d, key(s[0]), key(rest[j])) {
          var k :| 0 <= k < |s[1..]| && s[1..][k] == rest[j];
          assert s[k + 1] == rest[j];
        }
        assert Filter(s, p) == [s[0]] + rest;
      }
    }
  }

  /** A page of the selection holds only accepted rows of the table, in the
      requested order. */
  lemma PageOfSelection<T>(page: seq<T>, rows: seq<T>, keep: T -> bool, order: Option<Order<T>>)
    requires IsSlice(page, Select(rows, keep, order))
    ensures forall i :: 0 <= i < |page| ==> page[i] in rows && keep(page[i])
    ensures order.Some? ==> Sorted(page, order.value.key, order.value.direction)
  {
    var selected := Select(rows, keep, order);
    var lo :| SliceAt(page, selected, lo);
    SliceElements(page, selected);
    forall i | 0 <= i < |page| ensures page[i] in rows && keep(page[i]) {
      assert page[i] in multiset(selected);
      FilterCount(rows, keep, page[i]);
    }
    if order.Some? {
      SortedSlice(selected, lo, lo + |page|, order.value.key, order.value.direction);
    }
  }

  /** `prismaPaginate` over a filtered, ordered table: the count and the page
      read the same selection, so the total counts every accepted row and the
      page is the window of the selection at the served page; the page holds
      accepted rows in order, and the first link exists exactly when there is
      something to link to. */
  function ListPage<T(==)>(rows: seq<T>, keep: T -> bool, order: Option<Order<T>>, options: Paginate.PaginationOptions, requestUrl: Option<string>): (r: Paginate.PaginationResult<T>)
    ensures Paginate.Serves(r, Select(rows, keep, order), options, requestUrl)
    ensures r.meta.totalItems == |Filter(rows, keep)|
    ensures forall i :: 0 <= i < |r.data| ==> r.data[i] in rows && keep(r.data[i])
    ensures order.Some? ==> Sorted(r.data, order.value.key, order.value.direction)
    ensures r.meta.itemsPerPage == Paginate.EffectiveLimit(options)
    ensures r.links.first.Some? <==> r.meta.totalItems > 0 && Paginate.HasRoute(Paginate.Route(options, requestUrl))
  {
    var selected := Select(rows, keep, order);
    var r := Paginate.Paginate(selected, options, requestUrl);
    Paginate.PaginateServes(selected, options, requestUrl);
    SelectLength(rows, keep, order);
    PageOfSelection(r.data, rows, keep, order);
    Paginate.LinkTargets(selected, options, requestUrl);
    r
  }
}
