/** ScimGroupMapper: the stand-alone conversions between a GroupResource
    and a GroupEntity. Neither direction carries members, and the resource
    gets no version token. `freshId` is the random UUID `toEntity` draws
    for a resource without an id. */
module GroupMapper {
  import opened Wrappers
  import opened ScimTypes
  import opened Entities
  import opened Stores
  import UserMapper
  import GroupService

  /** `toEntity(scimGroup)`: the resource's id, or a fresh one when it has
      none, and its displayName; no members and no timestamps yet. */
  function ToEntity(r: GroupResource, freshId: string): (e: GroupEntity)
    ensures e.externalId == (if r.id.Some? then r.id else Some(freshId))
    ensures e.displayName == r.displayName
    ensures e.members == {} && e.createdAt.None? && e.updatedAt.None?
  {
    NewGroup.(externalId := Some(r.id.GetOr(freshId)), displayName := r.displayName)
  }

  /** `toScim(entity)`: id, displayName and the meta; the members attribute
      is never set. */
  function ToScim(e: GroupEntity): (r: GroupResource)
    ensures r.id == e.externalId && r.displayName == e.displayName && r.members.None?
    ensures r.meta == Some(UserMapper.MapperMeta("Group", GROUPS_PATH, e.externalId, e.createdAt, e.updatedAt))
  {
    GroupResource(e.externalId, e.displayName, None,
                  Some(UserMapper.MapperMeta("Group", GROUPS_PATH, e.externalId, e.createdAt, e.updatedAt)))
  }

  /** Entity to resource and back keeps the id and the displayName and
      drops the members and the timestamps; the fresh id is never used
      for an entity that has one. */
  lemma EntityRoundTrip(e: GroupEntity, freshId: string)
    requires e.externalId.Some?
    ensures ToEntity(ToScim(e), freshId) == e.(members := {}, createdAt := None, updatedAt := None)
  {
  }

  /** Resource to entity and back keeps the displayName, keeps the id or
      fills in the fresh one, and drops the members and the meta's
      timestamps and version. */
  lemma ResourceRoundTrip(r: GroupResource, freshId: string)
    ensures var back := ToScim(ToEntity(r, freshId));
            && back.id == Some(r.id.GetOr(freshId)) && back.displayName == r.displayName
            && back.members.None?
            && back.meta == Some(Meta(Some("Group"), None, None, Some(GROUPS_PATH + r.id.GetOr(freshId)), None))
  {
  }

  /** For a group without members, the mapper and the service's mapping
      agree on everything but the version token. */
  lemma MapperAgreesWithService(s: Store, g: GroupEntity, digest: string -> string)
    requires KeysMatch(s) && g.members == {}
    ensures var m := GroupService.MapToScimGroup(s, g, digest);
            ToScim(g) == m.(meta := Some(m.meta.value.(version := None)))
  {
  }
}
