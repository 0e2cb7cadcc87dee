/** ScimUserMapper: the stand-alone conversions between a UserResource and
    a UserEntity. They are simpler than the service's own mapping: no name
    attribute, no version token, and the user's groups are listed. */
module UserMapper {
  import opened Wrappers
  import opened JavaText
  import opened ScimTypes
  import opened Entities
  import opened Stores
  import opened Enumeration
  import UserService
  import GroupService
  import ScimMetaModel

  /** `toEntity(scimUser)`: userName, displayName and active are copied and
      the first email's value becomes the email. `setActive(boolean)`
      unboxes the resource's Boolean, so a null active throws and there is
      no entity: the result is None. */
  function ToEntity(r: UserResource): (e: Option<UserEntity>)
    ensures e.None? <==> r.active.None?
    ensures e.Some? ==>
              && e.value.userName == r.userName && e.value.displayName == r.displayName
              && e.value.active == r.active.value
              && e.value.email == (if UserService.HasEmail(r) then r.emails.value[0].value else None)
    ensures e.Some? ==>
              && e.value.externalId.None? && e.value.firstName.None? && e.value.lastName.None?
              && e.value.groups == {} && e.value.createdAt.None? && e.value.updatedAt.None?
  {
    if r.active.None? then None
    else
      var email := if UserService.HasEmail(r) then r.emails.value[0].value else None;
      Some(NewUser.(userName := r.userName, displayName := r.displayName, active := r.active.value, email := email))
  }

  /** The group entry for stored group `id`: its id, its location and its displayName. */
  function GroupRefOf(s: Store, id: string): (g: GroupRef)
    requires KeysMatch(s) && id in s.groups
    ensures g.value == Some(id) && g.ref == Some(GROUPS_PATH + id) && g.display == s.groups[id].displayName
  {
    var row := s.groups[id];
    GroupRef(row.externalId, Some(GROUPS_PATH + Render(row.externalId)), row.displayName)
  }

  /** The group entries for the ids `ids`, in their order. */
  function RefList(s: Store, ids: seq<string>): (refs: seq<GroupRef>)
    requires KeysMatch(s) && forall k :: 0 <= k < |ids| ==> ids[k] in s.groups
    ensures |refs| == |ids|
    ensures forall g :: g in refs ==> g.value.Some? && g.value.value in ids && g == GroupRefOf(s, g.value.value)
    ensures forall id :: id in ids ==> GroupRefOf(s, id) in refs
  {
    if ids == [] then [] else [GroupRefOf(s, ids[0])] + RefList(s, ids[1..])
  }

  /** The groups attribute for the group ids `gs`, as loaded through the
      join table: only ids with a group row come back, so an id whose row is
      gone is not listed. Unset when none is left, otherwise one entry per
      loaded group in the set's iteration order. */
  ghost function GroupsAttribute(s: Store, gs: set<string>): (r: Option<seq<GroupRef>>)
    requires KeysMatch(s)
    ensures r.None? <==> gs * s.groups.Keys == {}
    ensures r.Some? ==>
              && |r.value| == |gs * s.groups.Keys|
              && (forall g :: g in r.value ==>
                    g.value.Some? && g.value.value in gs && g.value.value in s.groups && g == GroupRefOf(s, g.value.value))
              && (forall id :: id in gs && id in s.groups ==> GroupRefOf(s, id) in r.value)
  {
    var loaded := gs * s.groups.Keys;
    if loaded == {} then None
    else
      var ids := SetToSeq(loaded);
      assert forall k :: 0 <= k < |ids| ==> ids[k] in loaded;
      Some(RefList(s, ids))
  }

  /** The meta `toScim` attaches: resource type, the two timestamps as UTC
      Calendars when present, the location, and no version. */
  function MapperMeta(resourceType: string, path: string, id: Option<string>,
                      created: Option<Instants.Instant>, updated: Option<Instants.Instant>): (m: Meta)
    ensures m.resourceType == Some(resourceType) && m.version.None?
    ensures m.location == Some(path + Render(id))
    ensures m.created.Some? <==> created.Some?
    ensures m.lastModified.Some? <==> updated.Some?
    ensures m.created.Some? ==> m.created.value == Instants.ToEpochMilli(created.value)
    ensures m.lastModified.Some? ==> m.lastModified.value == Instants.ToEpochMilli(updated.value)
  {
    Meta(Some(resourceType), ScimMetaModel.InstantToCalendar(created), ScimMetaModel.InstantToCalendar(updated),
         Some(path + Render(id)), None)
  }

  /** `toScim(entity)`. The user's groups are the group entities loaded
      through the join table, so only ids with a group row are listed; they
      come out in the set's iteration order, and the attribute is left unset
      when the user is in no stored group. */
  ghost function ToScim(s: Store, e: UserEntity): (r: UserResource)
    requires KeysMatch(s)
    ensures r.id == e.externalId && r.userName == e.userName && r.displayName == e.displayName
    ensures r.active == Some(e.active) && r.name.None?
    ensures r.emails == UserService.EmailsOf(e.email)
    ensures r.groups == GroupsAttribute(s, e.groups)
    ensures r.meta == Some(MapperMeta("User", USERS_PATH, e.externalId, e.createdAt, e.updatedAt))
  {
    var groups := GroupsAttribute(s, e.groups);
    UserResource(e.externalId, e.userName, e.displayName, Some(e.active), None,
                 UserService.EmailsOf(e.email), groups,
                 Some(MapperMeta("User", USERS_PATH, e.externalId, e.createdAt, e.updatedAt)))
  }

  /** Entity to resource and back keeps the four copied columns and nothing
      else: the id, the names, the groups and the timestamps are lost. */
  lemma EntityRoundTrip(s: Store, e: UserEntity)
    requires KeysMatch(s)
    ensures ToEntity(ToScim(s, e))
            == Some(NewUser.(userName := e.userName, displayName := e.displayName, active := e.active, email := e.email))
  {
  }

  /** Resource to entity and back keeps userName, displayName and active,
      keeps the first email as the one work email, and drops the id, the
      name, the groups, the other emails and the meta. */
  lemma ResourceRoundTrip(s: Store, r: UserResource)
    requires KeysMatch(s) && r.active.Some?
    ensures ToEntity(r).Some?
    ensures var back := ToScim(s, ToEntity(r).value);
            && back.userName == r.userName && back.displayName == r.displayName && back.active == r.active
            && back.id.None? && back.name.None? && back.groups.None?
            && back.emails == UserService.EmailsOf(if UserService.HasEmail(r) then r.emails.value[0].value else None)
  {
  }

  /** For a user in no group and without names, the mapper and the
      service's mapping agree on everything but the version token, which
      only the service computes. */
  lemma MapperAgreesWithService(s: Store, e: UserEntity, digest: string -> string)
    requires KeysMatch(s) && e.groups == {} && e.firstName.None? && e.lastName.None?
    ensures var m := UserService.MapToScimUser(e, digest);
            ToScim(s, e) == m.(meta := Some(m.meta.value.(version := None)))
  {
  }

  /** In a store where every listed id has a row, the attribute names
      exactly the user's groups. */
  lemma {:induction false} ResolvedGroupsAllListed(s: Store, e: UserEntity)
    requires KeysMatch(s) && e.groups <= s.groups.Keys
    ensures var r := ToScim(s, e).groups;
            && (r.None? <==> e.groups == {})
            && (r.Some? ==> |r.value| == |e.groups|
                            && forall id :: id in e.groups <==> (exists g :: g in r.value && g.value == Some(id)))
  {
    var r := ToScim(s, e).groups;
    assert e.groups * s.groups.Keys == e.groups;
    if r.Some? {
      forall id | id in e.groups ensures exists g :: g in r.value && g.value == Some(id) {
        assert GroupRefOf(s, id) in r.value;
      }
    }
  }

  /** Deleting a group leaves its id in its former members' group sets
      (GroupService.DeleteGroupLeavesDanglingIds), but the user read back
      afterwards does not list it: the join only loads rows that exist. The
      user's other stored groups are listed with the entries they had. */
  lemma {:induction false} DeletedGroupNotListed(s: Store, id: string, u: string)
    requires Consistent(s) && id in s.groups && u in s.users
    ensures var t := GroupService.DeleteGroup(s, id).store;
            && u in t.users && t.users[u] == s.users[u]
            && var r := ToScim(t, t.users[u]).groups;
            && (r.None? <==> s.users[u].groups * s.groups.Keys <= {id})
            && (r.Some? ==> forall g :: g in r.value ==> g.value != Some(id))
            && (r.Some? ==> forall h :: h in s.users[u].groups && h in s.groups && h != id ==> GroupRefOf(s, h) in r.value)
  {
    var t := GroupService.DeleteGroup(s, id).store;
    assert t.groups == s.groups - {id} && t.users == s.users;
    var gs := s.users[u].groups;
    assert gs * t.groups.Keys == gs * s.groups.Keys - {id};
    var r := GroupsAttribute(t, gs);
    forall h | h in gs && h in s.groups && h != id ensures r.Some? && GroupRefOf(s, h) in r.value {
      assert h in gs * t.groups.Keys;
      assert GroupRefOf(t, h) in r.value;
      assert t.groups[h] == s.groups[h];
    }
  }
}
