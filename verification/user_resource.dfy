/** `UserResource`: the public view of a user. Objects are modelled with the
    two private columns optional, so the projection can be applied to a row
    from the store and to its own output alike. */
module UserResource {
  import opened Wrappers
  import opened Schema
  import opened Collections

  /** A user-shaped object; `password` and `deletedAt` are `None` when the
      object does not carry them. */
  datatype UserObject = UserObject(
    id: int,
    name: string,
    avatar: Option<string>,
    email: string,
    username: Option<string>,
    createdAt: int,
    updatedAt: int,
    password: Option<string>,
    deletedAt: Option<Option<int>>)

  /** A row as the store returns it: every column present. */
  function FromRow(u: User): (o: UserObject)
    ensures o.password == Some(u.password) && o.deletedAt == Some(u.deletedAt)
  {
    UserObject(u.id, u.name, u.avatar, u.email, u.username, u.createdAt, u.updatedAt, Some(u.password), Some(u.deletedAt))
  }

  /** The seven public fields agree. */
  predicate SamePublicFields(a: UserObject, b: UserObject) {
    && a.id == b.id && a.name == b.name && a.avatar == b.avatar && a.email == b.email
    && a.username == b.username && a.createdAt == b.createdAt && a.updatedAt == b.updatedAt
  }

  /** `toResource`: the public fields, copied unchanged; nothing else. */
  function ToResource(o: UserObject): (r: UserObject)
    ensures SamePublicFields(r, o)
    ensures r.password.None? && r.deletedAt.None?
  {
    UserObject(o.id, o.name, o.avatar, o.email, o.username, o.createdAt, o.updatedAt, None, None)
  }

  /** Two objects have the same resource exactly when their public fields
      agree: the password and the deletion mark never show. */
  lemma ResourceDeterminedByPublicFields(a: UserObject, b: UserObject)
    ensures ToResource(a) == ToResource(b) <==> SamePublicFields(a, b)
  {
  }

  /** `toResource` is idempotent: its output is its own resource. */
  lemma ResourceIdempotent(o: UserObject)
    ensures ToResource(ToResource(o)) == ToResource(o)
  {
  }

  /** `toCollection`. */
  function ToCollection(users: seq<UserObject>): (r: seq<UserObject>)
    ensures |r| == |users|
    ensures forall i :: 0 <= i < |r| ==> r[i] == ToResource(users[i])
    ensures forall i :: 0 <= i < |r| ==> r[i].password.None? && r[i].deletedAt.None?
  {
    Map(users, ToResource)
  }

  /** `toCollection` distributes over concatenation. */
  lemma CollectionAppend(a: seq<UserObject>, b: seq<UserObject>)
    ensures ToCollection(a + b) == ToCollection(a) + ToCollection(b)
  {
  }
}
