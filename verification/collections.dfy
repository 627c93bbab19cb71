/** Sequence operations standing in for the store's `findFirst`/`findMany`
    with a `where` clause: both scan rows in table order. */
module Collections {
  import opened Wrappers

  /** The rows that satisfy `p`, in their original order. */
  function Filter<T>(s: seq<T>, p: T -> bool): (r: seq<T>)
    ensures |r| <= |s|
    ensures forall i :: 0 <= i < |r| ==> r[i] in s && p(r[i])
    ensures forall i :: 0 <= i < |s| && p(s[i]) ==> s[i] in r
  {
    if |s| == 0 then []
    else
      var rest := Filter(s[1..], p);
      assert forall i :: 1 <= i < |s| ==> s[i] == s[1..][i - 1];
      if p(s[0]) then [s[0]] + rest else rest
  }

  /** `idx` lists, in increasing order, exactly the positions of `s` whose
      element satisfies `p`. */
  ghost predicate KeptPositions<T>(s: seq<T>, p: T -> bool, idx: seq<int>) {
    && (forall k :: 0 <= k < |idx| ==> 0 <= idx[k] < |s| && p(s[idx[k]]))
    && (forall k, l :: 0 <= k < l < |idx| ==> idx[k] < idx[l])
    && (forall j :: 0 <= j < |s| && p(s[j]) ==> j in idx)
  }

  /** Filtering keeps the elements at exactly the positions `p` accepts, in
      their original order. */
  lemma {:induction false} FilterPositions<T>(s: seq<T>, p: T -> bool) returns (idx: seq<int>)
    ensures KeptPositions(s, p, idx)
    ensures |idx| == |Filter(s, p)|
    ensures forall k :: 0 <= k < |idx| ==> Filter(s, p)[k] == s[idx[k]]
  {
    if |s| == 0 {
      idx := [];
    } else {
      var tail := Filter(s[1..], p);
      var rest := FilterPositions(s[1..], p);
      var shifted := ShiftPositions(s, s[1..], p, rest, tail);
      if p(s[0]) {
        idx := [0] + shifted;
        ConsPositions(s, p, shifted, tail);
        assert Filter(s, p) == [s[0]] + tail;
      } else {
        idx := shifted;
        assert Filter(s, p) == tail;
      }
    }
  }

  /** Prepending position 0 of an accepted head. */
  lemma ConsPositions<T>(s: seq<T>, p: T -> bool, shifted: seq<int>, tail: seq<T>)
    requires |s| > 0 && p(s[0]) && |shifted| == |tail|
    requires forall k :: 0 <= k < |shifted| ==> 1 <= shifted[k] < |s| && p(s[shifted[k]]) && tail[k] == s[shifted[k]]
    requires forall k, l :: 0 <= k < l < |shifted| ==> shifted[k] < shifted[l]
    requires forall j :: 1 <= j < |s| && p(s[j]) ==> j in shifted
    ensures KeptPositions(s, p, [0] + shifted)
    ensures forall k :: 0 <= k < |shifted| + 1 ==> ([s[0]] + tail)[k] == s[([0] + shifted)[k]]
  {
    var idx := [0] + shifted;
    forall k | 0 <= k < |idx| ensures 0 <= idx[k] < |s| && p(s[idx[k]]) && ([s[0]] + tail)[k] == s[idx[k]] {
      if k > 0 {
        assert idx[k] == shifted[k - 1];
      }
    }
    forall j | 0 <= j < |s| && p(s[j]) ensures j in idx {
      if j > 0 {
        assert j in shifted;
      }
    }
  }

  /** The positions kept in the tail `t` of `s`, read as positions of `s`. */
  lemma ShiftPositions<T>(s: seq<T>, t: seq<T>, p: T -> bool, rest: seq<int>, tail: seq<T>) returns (shifted: seq<int>)
    requires |t| + 1 == |s| && forall i :: 0 <= i < |t| ==> t[i] == s[i + 1]
    requires KeptPositions(t, p, rest)
    requires |rest| == |tail| && forall k :: 0 <= k < |rest| ==> tail[k] == t[rest[k]]
    ensures |shifted| == |rest|
    ensures forall k :: 0 <= k < |shifted| ==> 1 <= shifted[k] < |s| && p(s[shifted[k]]) && tail[k] == s[shifted[k]]
    ensures forall k, l :: 0 <= k < l < |shifted| ==> shifted[k] < shifted[l]
    ensures forall j :: 1 <= j < |s| && p(s[j]) ==> j in shifted
  {
    shifted := Shift(rest);
    forall j | 1 <= j < |s| && p(s[j]) ensures j in shifted {
      assert t[j - 1] == s[j];
      var k :| 0 <= k < |rest| && rest[k] == j - 1;
      assert shifted[k] == j;
    }
  }

  /** Every position moved one place on. */
  function Shift(positions: seq<int>): (r: seq<int>)
    ensures |r| == |positions| && forall k :: 0 <= k < |r| ==> r[k] == positions[k] + 1
  {
    seq(|positions|, k requires 0 <= k < |positions| => positions[k] + 1)
  }

  /** Filtering keeps every element satisfying `p` exactly as often as it
      occurs, and drops every other element. */
  lemma {:induction false} FilterCount<T>(s: seq<T>, p: T -> bool, x: T)
    ensures multiset(Filter(s, p))[x] == if p(x) then multiset(s)[x] else 0
  {
    if |s| > 0 {
      assert s == [s[0]] + s[1..];
      FilterCount(s[1..], p, x);
    }
  }

  /** Two filters that agree on every element select the same rows. */
  lemma {:induction false} FilterExtensional<T>(s: seq<T>, p: T -> bool, q: T -> bool)
    requires forall i :: 0 <= i < |s| ==> p(s[i]) == q(s[i])
    ensures Filter(s, p) == Filter(s, q)
  {
    if |s| > 0 {
      FilterExtensional(s[1..], p, q);
    }
  }

  /** A filter no element passes leaves nothing. */
  lemma {:induction false} FilterNone<T>(s: seq<T>, p: T -> bool)
    requires forall i :: 0 <= i < |s| ==> !p(s[i])
    ensures Filter(s, p) == []
  {
    if |s| > 0 {
      FilterNone(s[1..], p);
    }
  }

  /** A filter every element passes keeps the whole sequence. */
  lemma {:induction false} FilterAll<T>(s: seq<T>, p: T -> bool)
    requires forall i :: 0 <= i < |s| ==> p(s[i])
    ensures Filter(s, p) == s
  {
    if |s| > 0 {
      FilterAll(s[1..], p);
    }
  }

  /** Filtering two permutations of each other gives permutations of each
      other. */
  lemma FilterPermutation<T>(a: seq<T>, b: seq<T>, p: T -> bool)
    requires multiset(a) == multiset(b)
    ensures multiset(Filter(a, p)) == multiset(Filter(b, p))
  {
    forall x ensures multiset(Filter(a, p))[x] == multiset(Filter(b, p))[x] {
      FilterCount(a, p, x);
      FilterCount(b, p, x);
    }
  }

  /** Filtering out an element that is there makes the sequence shorter. */
  lemma {:induction false} FilterShorter<T>(s: seq<T>, p: T -> bool, k: int)
    requires 0 <= k < |s| && !p(s[k])
    ensures |Filter(s, p)| < |s|
  {
    if k > 0 {
      FilterShorter(s[1..], p, k - 1);
    }
  }

  /** Filtering distributes over concatenation. */
  lemma {:induction false} FilterAppend<T>(a: seq<T>, b: seq<T>, p: T -> bool)
    ensures Filter(a + b, p) == Filter(a, p) + Filter(b, p)
  {
    if |a| == 0 {
      assert a + b == b;
    } else {
      assert (a + b)[1..] == a[1..] + b;
      FilterAppend(a[1..], b, p);
    }
  }

  /** The index of the first element satisfying `p`: `findFirst` without an
      `orderBy` returns the earliest matching row of the table. */
  function FirstIndex<T>(s: seq<T>, p: T -> bool): (r: Option<nat>)
    ensures r.Some? ==> r.value < |s| && p(s[r.value])
    ensures r.Some? ==> forall j :: 0 <= j < r.value ==> !p(s[j])
    ensures r.None? <==> forall j :: 0 <= j < |s| ==> !p(s[j])
  {
    if |s| == 0 then None
    else if p(s[0]) then Some(0)
    else match FirstIndex(s[1..], p)
      case None =>
        assert forall j :: 1 <= j < |s| ==> s[j] == s[1..][j - 1];
        None
      case Some(i) => Some(i + 1)
  }

  /** `s.map(f)`. */
  function Map<T, U>(s: seq<T>, f: T -> U): (r: seq<U>)
    ensures |r| == |s|
    ensures forall i :: 0 <= i < |s| ==> r[i] == f(s[i])
  {
    seq(|s|, i requires 0 <= i < |s| => f(s[i]))
  }

  /** The first element satisfying `p`, if any. */
  function FirstMatch<T>(s: seq<T>, p: T -> bool): (r: Option<T>)
    ensures r.Some? ==> r.value in s && p(r.value)
    ensures r.None? <==> forall j :: 0 <= j < |s| ==> !p(s[j])
  {
    match FirstIndex(s, p)
    case None => None
    case Some(i) => Some(s[i])
  }

  /** Rewrites, in place, every element satisfying `p` with `f`: the store's
      `update({ where, data })`. */
  function UpdateWhere<T>(s: seq<T>, p: T -> bool, f: T -> T): (r: seq<T>)
    ensures |r| == |s|
    ensures forall i :: 0 <= i < |s| ==> r[i] == if p(s[i]) then f(s[i]) else s[i]
  {
    seq(|s|, i requires 0 <= i < |s| => if p(s[i]) then f(s[i]) else s[i])
  }

  /** `a` is the run of `b` starting at `lo`. */
  ghost predicate SliceAt<T>(a: seq<T>, b: seq<T>, lo: int) {
    0 <= lo <= |b| - |a| && a == b[lo..lo + |a|]
  }

  /** `a` is a contiguous run of `b`. */
  ghost predicate IsSlice<T>(a: seq<T>, b: seq<T>) {
    exists lo :: SliceAt(a, b, lo)
  }

  lemma SliceElements<T>(a: seq<T>, b: seq<T>)
    requires IsSlice(a, b)
    ensures forall i :: 0 <= i < |a| ==> a[i] in b
  {
    var lo :| SliceAt(a, b, lo);
    forall i | 0 <= i < |a| ensures a[i] in b {
      assert a[i] == b[lo + i];
    }
  }
}
