/** The store's `orderBy: { <field>: 'asc' | 'desc' }`: rows are arranged by
    one column, ascending or descending. Text columns compare character by
    character on code points; number and timestamp columns numerically. */
module Ordering {

  datatype Direction = Asc | Desc

  /** The value of the column a row is sorted on. */
  datatype SortKey = Number(n: int) | Text(s: string)

  /** Lexicographic order on strings; a proper prefix comes first. */
  predicate TextLe(a: string, b: string) {
    |a| == 0 || (|b| > 0 && (a[0] < b[0] || (a[0] == b[0] && TextLe(a[1..], b[1..]))))
  }

  /** Keys of one column are all numbers or all text; numbers are put before
      text only to make the order total. */
  predicate KeyLe(a: SortKey, b: SortKey) {
    match (a, b)
    case (Number(x), Number(y)) => x <= y
    case (Text(x), Text(y)) => TextLe(x, y)
    case (Number(_), Text(_)) => true
    case (Text(_), Number(_)) => false
  }

  /** `a` may come before `b` under the given direction. */
  predicate InOrder(d: Direction, a: SortKey, b: SortKey) {
    if d == Asc then KeyLe(a, b) else KeyLe(b, a)
  }

  lemma {:induction false} TextLeTotal(a: string, b: string)
    ensures TextLe(a, b) || TextLe(b, a)
  {
    if |a| > 0 && |b| > 0 && a[0] == b[0] {
      TextLeTotal(a[1..], b[1..]);
    }
  }

  lemma {:induction false} TextLeTransitive(a: string, b: string, c: string)
    requires TextLe(a, b) && TextLe(b, c)
    ensures TextLe(a, c)
  {
    if |a| > 0 && a[0] == b[0] && b[0] == c[0] {
      TextLeTransitive(a[1..], b[1..], c[1..]);
    }
  }

  lemma KeyLeTotal(a: SortKey, b: SortKey)
    ensures KeyLe(a, b) || KeyLe(b, a)
  {
    if a.Text? && b.Text? {
      TextLeTotal(a.s, b.s);
    }
  }

  lemma KeyLeTransitive(a: SortKey, b: SortKey, c: SortKey)
    requires KeyLe(a, b) && KeyLe(b, c)
    ensures KeyLe(a, c)
  {
    if a.Text? && b.Text? && c.Text? {
      TextLeTransitive(a.s, b.s, c.s);
    }
  }

  lemma InOrderTotal(d: Direction, a: SortKey, b: SortKey)
    ensures InOrder(d, a, b) || InOrder(d, b, a)
  {
    KeyLeTotal(a, b);
  }

  lemma InOrderTransitive(d: Direction, a: SortKey, b: SortKey, c: SortKey)
    requires InOrder(d, a, b) && InOrder(d, b, c)
    ensures InOrder(d, a, c)
  {
    if d == Asc {
      KeyLeTransitive(a, b, c);
    } else {
      KeyLeTransitive(c, b, a);
    }
  }

  /** Every earlier element may precede every later one. */
  predicate Sorted<T>(s: seq<T>, key: T -> SortKey, d: Direction) {
    forall i, j :: 0 <= i < j < |s| ==> InOrder(d, key(s[i]), key(s[j]))
  }

  /** Inserts `x` before the first element it may precede. */
  function Insert<T>(x: T, s: seq<T>, key: T -> SortKey, d: Direction): (r: seq<T>)
    ensures multiset(r) == multiset(s) + multiset{x}
  {
    if |s| == 0 then [x]
    else if InOrder(d, key(x), key(s[0])) then [x] + s
    else
      assert s == [s[0]] + s[1..];
      [s[0]] + Insert(x, s[1..], key, d)
  }

  /** Putting a first element in front of a sorted sequence keeps it sorted
      when that element may precede every other. */
  lemma SortedCons<T>(h: T, s: seq<T>, key: T -> SortKey, d: Direction)
    requires Sorted(s, key, d)
    requires forall j :: 0 <= j < |s| ==> InOrder(d, key(h), key(s[j]))
    ensures Sorted([h] + s, key, d)
  {
    forall i, j | 0 <= i < j < |[h] + s| ensures InOrder(d, key(([h] + s)[i]), key(([h] + s)[j])) {
      if i > 0 {
        assert ([h] + s)[i] == s[i - 1];
      }
      assert ([h] + s)[j] == s[j - 1];
    }
  }

  /** Inserting into a sorted sequence keeps it sorted. */
  lemma {:induction false} InsertSorted<T>(x: T, s: seq<T>, key: T -> SortKey, d: Direction)
    requires Sorted(s, key, d)
    ensures Sorted(Insert(x, s, key, d), key, d)
  {
    if |s| == 0 {
    } else if InOrder(d, key(x), key(s[0])) {
      forall j | 0 <= j < |s| ensures InOrder(d, key(x), key(s[j])) {
        if j > 0 {
          InOrderTransitive(d, key(x), key(s[0]), key(s[j]));
        }
      }
      SortedCons(x, s, key, d);
    } else {
      InOrderTotal(d, key(x), key(s[0]));
      var tail := s[1..];
      var rest := Insert(x, tail, key, d);
      assert Sorted(tail, key, d) by { SortedSlice(s, 1, |s|, key, d); }
      InsertSorted(x, tail, key, d);
      forall j | 0 <= j < |rest| ensures InOrder(d, key(s[0]), key(rest[j])) {
        assert rest[j] in multiset(rest);
        if rest[j] != x {
          assert rest[j] in multiset(tail);
          var m :| 0 <= m < |tail| && tail[m] == rest[j];
          assert tail[m] == s[m + 1];
        }
      }
      SortedCons(s[0], rest, key, d);
    }
  }

  /** The rows arranged by `key` in direction `d`: a permutation of the input,
      in order. */
  function SortBy<T>(s: seq<T>, key: T -> SortKey, d: Direction): (r: seq<T>)
    ensures multiset(r) == multiset(s)
    ensures |r| == |s|
    ensures Sorted(r, key, d)
  {
    if |s| == 0 then []
    else
      assert s == [s[0]] + s[1..];
      var rest := SortBy(s[1..], key, d);
      InsertSorted(s[0], rest, key, d);
      Insert(s[0], rest, key, d)
  }

  /** A contiguous run of a sorted sequence is sorted. */
  lemma SortedSlice<T>(s: seq<T>, lo: int, hi: int, key: T -> SortKey, d: Direction)
    requires 0 <= lo <= hi <= |s| && Sorted(s, key, d)
    ensures Sorted(s[lo..hi], key, d)
  {
    forall i, j | 0 <= i < j < hi - lo ensures InOrder(d, key(s[lo..hi][i]), key(s[lo..hi][j])) {
      assert s[lo..hi][i] == s[lo + i] && s[lo..hi][j] == s[lo + j];
    }
  }
}
