/** `Store`: the writes the database performs for `update` and `delete` by
    id, over any table whose rows carry an id. */
module Store {
  import opened Wrappers
  import opened Schema
  import opened Collections

  /** `update({ where: { id }, data })`: rewrites the row with this id and
      returns it; fails when there is no such row. */
  function UpdateById<T>(t: Table<T>, id: T -> int, key: int, f: T -> T): (r: Result<(Table<T>, T)>)
    ensures r.Failure? <==> forall i :: 0 <= i < |t.rows| ==> id(t.rows[i]) != key
    ensures r.Failure? ==> r.error == RecordMissing
    ensures r.Success? ==>
      && r.value.0.nextId == t.nextId
      && |r.value.0.rows| == |t.rows|
      && (forall i :: 0 <= i < |t.rows| && id(t.rows[i]) != key ==> r.value.0.rows[i] == t.rows[i])
      && (forall i :: 0 <= i < |t.rows| && id(t.rows[i]) == key ==> r.value.0.rows[i] == f(t.rows[i]))
      && exists i :: 0 <= i < |t.rows| && id(t.rows[i]) == key && r.value.1 == f(t.rows[i])
  {
    match FirstIndex(t.rows, (x: T) => id(x) == key)
    case None => Failure(RecordMissing)
    case Some(i) =>
      var rows := UpdateWhere(t.rows, (x: T) => id(x) == key, f);
      Success((Table(rows, t.nextId), f(t.rows[i])))
  }

  /** The rows a delete by `key` keeps. */
  function KeyIsNot<T>(id: T -> int, key: int): T -> bool {
    (x: T) => id(x) != key
  }

  /** `delete({ where: { id } })`: removes the row with this id and returns
      it; fails when there is no such row. The id is not handed out again. */
  function DeleteById<T>(t: Table<T>, id: T -> int, key: int): (r: Result<(Table<T>, T)>)
    ensures r.Failure? <==> forall i :: 0 <= i < |t.rows| ==> id(t.rows[i]) != key
    ensures r.Failure? ==> r.error == RecordMissing
    ensures r.Success? ==>
      && r.value.0.nextId == t.nextId
      && r.value.0.rows == Filter(t.rows, KeyIsNot(id, key))
      && exists i :: 0 <= i < |t.rows| && id(t.rows[i]) == key && r.value.1 == t.rows[i]
  {
    match FirstIndex(t.rows, (x: T) => id(x) == key)
    case None => Failure(RecordMissing)
    case Some(i) => Success((Table(Filter(t.rows, KeyIsNot(id, key)), t.nextId), t.rows[i]))
  }

  /** After a delete by id no row carries that id, and every other row is
      still there. */
  lemma DeleteRemovesOnlyKey<T>(t: Table<T>, id: T -> int, key: int)
    requires DeleteById(t, id, key).Success?
    ensures forall i :: 0 <= i < |DeleteById(t, id, key).value.0.rows| ==> id(DeleteById(t, id, key).value.0.rows[i]) != key
    ensures forall i :: 0 <= i < |t.rows| && id(t.rows[i]) != key ==> t.rows[i] in DeleteById(t, id, key).value.0.rows
    ensures |DeleteById(t, id, key).value.0.rows| < |t.rows|
  {
    var k :| 0 <= k < |t.rows| && id(t.rows[k]) == key;
    FilterShorter(t.rows, KeyIsNot(id, key), k);
  }
}
