/** The two persistent entities, UserEntity and GroupEntity, and the paired
    helpers that keep the two sides of their many-to-many relation in step.

    Entity equality is by externalId, so a Java set of entities is modelled
    by the set of their external ids: a user keeps the external ids of its
    groups, a group those of its members. The user side owns the join table
    `user_groups`; the group side is its inverse (`mappedBy`). */
module Entities {
  import opened Wrappers
  import opened Instants
  import JavaText

  datatype UserEntity = UserEntity(
    externalId: Option<string>,
    userName: Option<string>,
    displayName: Option<string>,
    email: Option<string>,
    active: bool,
    firstName: Option<string>,
    lastName: Option<string>,
    groups: set<string>,
    createdAt: Option<Instant>,
    updatedAt: Option<Instant>)

  /** `new UserEntity()`: no id, no names, inactive, no groups, no timestamps. */
  const NewUser: UserEntity := UserEntity(None, None, None, None, false, None, None, {}, None, None)

  datatype GroupEntity = GroupEntity(
    externalId: Option<string>,
    displayName: Option<string>,
    members: set<string>,
    createdAt: Option<Instant>,
    updatedAt: Option<Instant>)

  /** `new GroupEntity()`. */
  const NewGroup: GroupEntity := GroupEntity(None, None, {}, None, None)

  /** Both sides agree on whether the edge between `g` and `u` exists. */
  predicate Linked(g: GroupEntity, u: UserEntity)
    requires g.externalId.Some? && u.externalId.Some?
  {
    (u.externalId.value in g.members) <==> (g.externalId.value in u.groups)
  }

  // -----------------------------------------------------------------------
  // Paired helpers. Edges are recorded by external id, so both entities
  // must carry one.

  /** `g.addMember(u)`: the user joins the group's members and the group
      joins the user's groups; nothing else changes. */
  function AddMember(g: GroupEntity, u: UserEntity): (r: (GroupEntity, UserEntity))
    requires g.externalId.Some? && u.externalId.Some?
    ensures u.externalId.value in r.0.members && g.externalId.value in r.1.groups
    ensures r.0.members - {u.externalId.value} == g.members - {u.externalId.value}
    ensures r.1.groups - {g.externalId.value} == u.groups - {g.externalId.value}
    ensures r.0.(members := g.members) == g && r.1.(groups := u.groups) == u
  {
    (g.(members := g.members + {u.externalId.value}),
     u.(groups := u.groups + {g.externalId.value}))
  }

  /** `g.removeMember(u)`: removes the edge from both sides. */
  function RemoveMember(g: GroupEntity, u: UserEntity): (r: (GroupEntity, UserEntity))
    requires g.externalId.Some? && u.externalId.Some?
    ensures u.externalId.value !in r.0.members && g.externalId.value !in r.1.groups
    ensures r.0.members + {u.externalId.value} == g.members + {u.externalId.value}
    ensures r.1.groups + {g.externalId.value} == u.groups + {g.externalId.value}
    ensures r.0.(members := g.members) == g && r.1.(groups := u.groups) == u
  {
    (g.(members := g.members - {u.externalId.value}),
     u.(groups := u.groups - {g.externalId.value}))
  }

  /** `u.addGroup(g)`. */
  function AddGroup(u: UserEntity, g: GroupEntity): (r: (UserEntity, GroupEntity))
    requires g.externalId.Some? && u.externalId.Some?
    ensures g.externalId.value in r.0.groups && u.externalId.value in r.1.members
    ensures r.0.groups - {g.externalId.value} == u.groups - {g.externalId.value}
    ensures r.1.members - {u.externalId.value} == g.members - {u.externalId.value}
    ensures r.0.(groups := u.groups) == u && r.1.(members := g.members) == g
  {
    (u.(groups := u.groups + {g.externalId.value}),
     g.(members := g.members + {u.externalId.value}))
  }

  /** `u.removeGroup(g)`. */
  function RemoveGroup(u: UserEntity, g: GroupEntity): (r: (UserEntity, GroupEntity))
    requires g.externalId.Some? && u.externalId.Some?
    ensures g.externalId.value !in r.0.groups && u.externalId.value !in r.1.members
    ensures r.0.groups + {g.externalId.value} == u.groups + {g.externalId.value}
    ensures r.1.members + {u.externalId.value} == g.members + {u.externalId.value}
    ensures r.0.(groups := u.groups) == u && r.1.(members := g.members) == g
  {
    (u.(groups := u.groups - {g.externalId.value}),
     g.(members := g.members - {u.externalId.value}))
  }

  /** Both helpers leave the pair linked, whatever state it was in. */
  lemma HelpersLink(g: GroupEntity, u: UserEntity)
    requires g.externalId.Some? && u.externalId.Some?
    ensures Linked(AddMember(g, u).0, AddMember(g, u).1)
    ensures Linked(RemoveMember(g, u).0, RemoveMember(g, u).1)
  {
  }

  /** The user-side helpers are the group-side helpers seen from the other end. */
  lemma UserSideMatchesGroupSide(u: UserEntity, g: GroupEntity)
    requires g.externalId.Some? && u.externalId.Some?
    ensures AddGroup(u, g) == (AddMember(g, u).1, AddMember(g, u).0)
    ensures RemoveGroup(u, g) == (RemoveMember(g, u).1, RemoveMember(g, u).0)
  {
  }

  /** Adding twice is adding once (set semantics). */
  lemma AddMemberIdempotent(g: GroupEntity, u: UserEntity)
    requires g.externalId.Some? && u.externalId.Some?
    ensures var (g1, u1) := AddMember(g, u);
            AddMember(g1, u1) == (g1, u1)
  {
  }

  /** Removing an edge that does not exist changes nothing. */
  lemma RemoveNonMemberIsNoOp(g: GroupEntity, u: UserEntity)
    requires g.externalId.Some? && u.externalId.Some?
    requires u.externalId.value !in g.members && g.externalId.value !in u.groups
    ensures RemoveMember(g, u) == (g, u)
  {
  }

  /** Removing right after adding a new edge restores both entities. */
  lemma RemoveUndoesAdd(g: GroupEntity, u: UserEntity)
    requires g.externalId.Some? && u.externalId.Some?
    requires u.externalId.value !in g.members && g.externalId.value !in u.groups
    ensures var (g1, u1) := AddMember(g, u);
            RemoveMember(g1, u1) == (g, u)
  {
  }

  // -----------------------------------------------------------------------
  // Collection setters

  /** `g.setMembers(ms)`: a null set becomes the empty set. */
  function SetMembers(g: GroupEntity, ms: Option<set<string>>): (r: GroupEntity)
    ensures r.members == (if ms.Some? then ms.value else {})
    ensures r.(members := g.members) == g
  {
    g.(members := ms.GetOr({}))
  }

  /** `u.setGroups(gs)`: a null set becomes the empty set. */
  function SetGroups(u: UserEntity, gs: Option<set<string>>): (r: UserEntity)
    ensures r.groups == (if gs.Some? then gs.value else {})
    ensures r.(groups := u.groups) == u
  {
    u.(groups := gs.GetOr({}))
  }

  // -----------------------------------------------------------------------
  // equals / hashCode

  /** `a.equals(b)`: `Objects.equals` on the external ids (two null ids are equal). */
  predicate UserEquals(a: UserEntity, b: UserEntity) {
    a.externalId == b.externalId
  }

  predicate GroupEquals(a: GroupEntity, b: GroupEntity) {
    a.externalId == b.externalId
  }

  /** `hashCode()`: `Objects.hash(externalId)`. */
  function UserHashCode(u: UserEntity): int {
    JavaText.ObjectsHash(u.externalId)
  }

  function GroupHashCode(g: GroupEntity): int {
    JavaText.ObjectsHash(g.externalId)
  }

  /** Equality and hash read the external id and nothing else, and equal
      entities hash alike (the contract of Object.hashCode). */
  lemma IdentityIsExternalId(a: UserEntity, b: UserEntity, g: GroupEntity, h: GroupEntity)
    ensures UserEquals(a, b) <==> a.externalId == b.externalId
    ensures UserEquals(a, b) ==> UserHashCode(a) == UserHashCode(b)
    ensures GroupEquals(g, h) <==> g.externalId == h.externalId
    ensures GroupEquals(g, h) ==> GroupHashCode(g) == GroupHashCode(h)
  {
  }

  // -----------------------------------------------------------------------
  // Lifecycle hooks; `now` is the value Instant.now() returns

  /** @PrePersist: createdAt and updatedAt both become `now`. */
  function UserOnCreate(u: UserEntity, now: Instant): (r: UserEntity)
    ensures r.createdAt == r.updatedAt == Some(now)
    ensures r.(createdAt := u.createdAt, updatedAt := u.updatedAt) == u
  {
    u.(createdAt := Some(now), updatedAt := Some(now))
  }

  /** @PreUpdate: only updatedAt moves. */
  function UserOnUpdate(u: UserEntity, now: Instant): (r: UserEntity)
    ensures r.updatedAt == Some(now)
    ensures r.(updatedAt := u.updatedAt) == u
  {
    u.(updatedAt := Some(now))
  }

  function GroupOnCreate(g: GroupEntity, now: Instant): (r: GroupEntity)
    ensures r.createdAt == r.updatedAt == Some(now)
    ensures r.(createdAt := g.createdAt, updatedAt := g.updatedAt) == g
  {
    g.(createdAt := Some(now), updatedAt := Some(now))
  }

  function GroupOnUpdate(g: GroupEntity, now: Instant): (r: GroupEntity)
    ensures r.updatedAt == Some(now)
    ensures r.(updatedAt := g.updatedAt) == g
  {
    g.(updatedAt := Some(now))
  }

  // -----------------------------------------------------------------------
  // Flush of a managed entity at commit

  /** The updatable columns of a user row differ. A change to the groups
      collection alone is a join-table change and does not make the row dirty. */
  predicate UserDirty(loaded: UserEntity, current: UserEntity) {
    loaded.(groups := {}, createdAt := None, updatedAt := None)
      != current.(groups := {}, createdAt := None, updatedAt := None)
  }

  predicate GroupDirty(loaded: GroupEntity, current: GroupEntity) {
    loaded.externalId != current.externalId || loaded.displayName != current.displayName
  }

  /** The row a flush leaves for a user loaded as `loaded` and now held as
      `current`: @PreUpdate runs only for a dirty row, and created_at is
      not updatable, so the loaded value stays. */
  function FlushUser(loaded: UserEntity, current: UserEntity, now: Instant): (r: UserEntity)
    ensures r.createdAt == loaded.createdAt
    ensures r.updatedAt == (if UserDirty(loaded, current) then Some(now) else current.updatedAt)
    ensures r.(createdAt := current.createdAt, updatedAt := current.updatedAt) == current
  {
    var stamped := if UserDirty(loaded, current) then UserOnUpdate(current, now) else current;
    stamped.(createdAt := loaded.createdAt)
  }

  function FlushGroup(loaded: GroupEntity, current: GroupEntity, now: Instant): (r: GroupEntity)
    ensures r.createdAt == loaded.createdAt
    ensures r.updatedAt == (if GroupDirty(loaded, current) then Some(now) else current.updatedAt)
    ensures r.(createdAt := current.createdAt, updatedAt := current.updatedAt) == current
  {
    var stamped := if GroupDirty(loaded, current) then GroupOnUpdate(current, now) else current;
    stamped.(createdAt := loaded.createdAt)
  }
}
