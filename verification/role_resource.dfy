/** `RoleResource`: the public view of a role, which is every column. */
module RoleResource {
  import opened Schema
  import opened Collections

  /** `toResource`: the six fields, copied unchanged. */
  function ToResource(role: Role): (r: Role)
    ensures r.id == role.id && r.name == role.name && r.slug == role.slug && r.description == role.description
    ensures r.createdAt == role.createdAt && r.updatedAt == role.updatedAt
  {
    Role(role.id, role.name, role.slug, role.description, role.createdAt, role.updatedAt)
  }

  /** Since a role has no private column, its resource is the role itself. */
  lemma ResourceIsIdentity(role: Role)
    ensures ToResource(role) == role
    ensures ToResource(ToResource(role)) == ToResource(role)
  {
  }

  /** `toCollection`. */
  function ToCollection(roles: seq<Role>): (r: seq<Role>)
    ensures |r| == |roles|
    ensures forall i :: 0 <= i < |r| ==> r[i] == ToResource(roles[i])
  {
    Map(roles, ToResource)
  }

  /** A collection of roles is shown as stored, in order. */
  lemma CollectionIsIdentity(roles: seq<Role>)
    ensures ToCollection(roles) == roles
  {
  }
}
