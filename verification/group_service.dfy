/** ScimGroupService: the Group resource lifecycle (create, get, replace,
    patch, delete, search) over the store, the membership changes each
    write makes through the entity helpers, the entity-to-resource mapping
    and its version token.

    Every writing operation is one transaction. A runtime error (a violated
    constraint) rolls it back; the checked NotFound a member list can end
    with does not, so what was written before it is committed. `now`, `newId` and `digest` play the parts they play in
    UserService. The group side of the membership relation is a Java
    HashSet of user entities, so its members always name stored users
    (KeysMatch and MembersResolve are required of the store), and its
    iteration order is the model's SetToSeq order. */
module GroupService {
  import opened Wrappers
  import opened Instants
  import opened JavaText
  import opened ScimTypes
  import opened ScimErrors
  import opened Entities
  import opened Stores
  import opened VersionTags
  import opened Paging
  import opened Enumeration
  import ScimMetaModel

  const GROUP_NOT_FOUND: string := "Group not found"
  const MEMBER_NOT_FOUND_PREFIX: string := "User not found: "
  const DEFAULT_PAGE_SIZE: int := 100

  // -----------------------------------------------------------------------
  // Entity to resource

  /** The member entry for stored user `id`: its id, its location and its userName. */
  function MemberOf(s: Store, id: string): (m: Member)
    requires KeysMatch(s) && id in s.users
    ensures m.value == Some(id) && m.ref == Some(USERS_PATH + id) && m.display == s.users[id].userName
  {
    var u := s.users[id];
    Member(u.externalId, Some(USERS_PATH + Render(u.externalId)), u.userName)
  }

  /** The member entries for `ids`, in that order. */
  function MemberList(s: Store, ids: seq<string>): (ms: seq<Member>)
    requires KeysMatch(s) && forall k :: 0 <= k < |ids| ==> ids[k] in s.users
    ensures |ms| == |ids|
    ensures forall k :: 0 <= k < |ids| ==> ms[k] == MemberOf(s, ids[k])
  {
    seq(|ids|, k requires 0 <= k < |ids| => MemberOf(s, ids[k]))
  }

  /** The members attribute for the user ids `us`: unset when there are
      none, otherwise one entry per id in the set's iteration order. */
  ghost function MembersAttribute(s: Store, us: set<string>): (r: Option<seq<Member>>)
    requires KeysMatch(s) && us <= s.users.Keys
    ensures r.None? <==> us == {}
    ensures r.Some? ==>
              && |r.value| == |us|
              && (forall m :: m in r.value ==> m.value.Some? && m.value.value in us && m == MemberOf(s, m.value.value))
              && (forall u :: u in us ==> MemberOf(s, u) in r.value)
  {
    if us == {} then None
    else
      var ids := SetToSeq(us);
      var ms := MemberList(s, ids);
      assert forall u :: u in us ==> MemberOf(s, u) in ms by {
        forall u | u in us ensures MemberOf(s, u) in ms {
          var k :| 0 <= k < |ids| && ids[k] == u;
          assert ms[k] == MemberOf(s, u);
        }
      }
      Some(ms)
  }

  /** `data += member.getValue()` over the list, null values rendered as "null". */
  function MemberValues(ms: seq<Member>): (t: string)
    ensures |ms| == 0 ==> t == ""
    decreases |ms|
  {
    if |ms| == 0 then "" else Render(ms[0].value) + MemberValues(ms[1..])
  }

  /** The string the group token digests: id and displayName as Java
      concatenation renders them, the lastModified term, then the member
      values when the resource has a member list. */
  function GroupTokenInput(r: GroupResource): string {
    Render(r.id) + Render(r.displayName) + LastModifiedTerm(r.meta)
      + (if r.members.Some? then MemberValues(r.members.value) else "")
  }

  /** The fields are concatenated without a separator, so two different
      groups of the same id can share a token: displayName "a" with member
      "bc", and displayName "ab" with member "c". */
  lemma TokenInputRunsFieldsTogether()
    ensures var a := GroupResource(Some("g"), Some("a"), Some([Member(Some("bc"), None, None)]), None);
            var b := GroupResource(Some("g"), Some("ab"), Some([Member(Some("c"), None, None)]), None);
            a != b && GroupTokenInput(a) == GroupTokenInput(b) == "gabc"
  {
    assert MemberValues([Member(Some("bc"), None, None)]) == "bc";
    assert MemberValues([Member(Some("c"), None, None)]) == "c";
  }

  /** With the id and the member list held fixed, the token input tells
      displayNames apart exactly as Java renders them: a rename changes
      it, except between null and the name "null". */
  lemma {:induction false} TokenInputSeparatesDisplayName(a: GroupResource, b: GroupResource)
    requires a.id == b.id && a.members == b.members && a.meta.None? && b.meta.None?
    ensures GroupTokenInput(a) == GroupTokenInput(b) <==> Render(a.displayName) == Render(b.displayName)
  {
    var p := Render(a.id);
    var m := if a.members.Some? then MemberValues(a.members.value) else "";
    var x := GroupTokenInput(a);
    var y := GroupTokenInput(b);
    assert x == p + Render(a.displayName) + m;
    assert y == p + Render(b.displayName) + m;
    if x == y {
      var i := |p|;
      var j := |x| - |m|;
      assert x[i..j] == Render(a.displayName);
      assert y[i..j] == Render(b.displayName);
    }
  }

  /** `mapToScimGroup(entity)`. The members attribute is set only for a
      non-empty set; the token is computed after the members and before the
      meta are attached, so it covers the members and no timestamp. */
  ghost function MapToScimGroup(s: Store, g: GroupEntity, digest: string -> string): (r: GroupResource)
    requires KeysMatch(s) && g.members <= s.users.Keys
    ensures r.id == g.externalId && r.displayName == g.displayName
    ensures r.members.None? <==> g.members == {}
    ensures r.members.Some? ==>
              && |r.members.value| == |g.members|
              && (forall m :: m in r.members.value ==>
                    m.value.Some? && m.value.value in g.members && m == MemberOf(s, m.value.value))
              && (forall u :: u in g.members ==> MemberOf(s, u) in r.members.value)
    ensures r.meta.Some? && r.meta.value.resourceType == Some("Group")
    ensures r.meta.value.location == Some(GROUPS_PATH + Render(g.externalId))
    ensures r.meta.value.created == ScimMetaModel.InstantToCalendar(g.createdAt)
    ensures r.meta.value.lastModified == ScimMetaModel.InstantToCalendar(g.updatedAt)
    ensures r.meta.value.version == Some(WeakTag(digest(GroupTokenInput(r.(meta := None)))))
  {
    var members := MembersAttribute(s, g.members);
    var base := GroupResource(g.externalId, g.displayName, members, None);
    var meta := Meta(Some("Group"),
                     ScimMetaModel.InstantToCalendar(g.createdAt),
                     ScimMetaModel.InstantToCalendar(g.updatedAt),
                     Some(GROUPS_PATH + Render(g.externalId)),
                     Some(WeakTag(digest(GroupTokenInput(base)))));
    base.(meta := Some(meta))
  }

  /** The version token a stored group currently carries. */
  ghost function GroupVersion(s: Store, g: GroupEntity, digest: string -> string): string
    requires KeysMatch(s) && g.members <= s.users.Keys
  {
    MapToScimGroup(s, g, digest).meta.value.version.value
  }

  /** The member values decide the member part of the token; display
      names and references do not enter it. */
  lemma {:induction false} MemberValuesAgree(a: seq<Member>, b: seq<Member>)
    requires |a| == |b| && forall k :: 0 <= k < |a| ==> a[k].value == b[k].value
    ensures MemberValues(a) == MemberValues(b)
    decreases |a|
  {
    if |a| > 0 {
      assert forall k :: 0 <= k < |a| - 1 ==> a[1..][k] == a[k + 1] && b[1..][k] == b[k + 1];
      MemberValuesAgree(a[1..], b[1..]);
    }
  }

  /** The token of a stored group depends on its id, its displayName and
      its member ids only: not on its timestamps, and not on the members'
      userNames. */
  lemma {:induction false} VersionIgnoresTimestamps(s1: Store, g1: GroupEntity, s2: Store, g2: GroupEntity,
                                                    digest: string -> string)
    requires KeysMatch(s1) && g1.members <= s1.users.Keys
    requires KeysMatch(s2) && g2.members <= s2.users.Keys
    requires g1.externalId == g2.externalId && g1.displayName == g2.displayName && g1.members == g2.members
    ensures GroupVersion(s1, g1, digest) == GroupVersion(s2, g2, digest)
  {
    TokenInputsAgree(s1, g1, s2, g2, digest);
  }

  /** The digested strings of two such groups are equal. */
  lemma {:induction false} TokenInputsAgree(s1: Store, g1: GroupEntity, s2: Store, g2: GroupEntity,
                                            digest: string -> string)
    requires KeysMatch(s1) && g1.members <= s1.users.Keys
    requires KeysMatch(s2) && g2.members <= s2.users.Keys
    requires g1.externalId == g2.externalId && g1.displayName == g2.displayName && g1.members == g2.members
    ensures GroupTokenInput(MapToScimGroup(s1, g1, digest).(meta := None))
            == GroupTokenInput(MapToScimGroup(s2, g2, digest).(meta := None))
  {
    var b1 := MapToScimGroup(s1, g1, digest).(meta := None);
    var b2 := MapToScimGroup(s2, g2, digest).(meta := None);
    if g1.members != {} {
      ListedValuesAgree(s1, s2, g1.members, digest);
      MembersAreListed(s1, g1, digest);
      MembersAreListed(s2, g2, digest);
    }
    TokenInputFromParts(b1, b2);
  }

  /** The member values listed for a set of users do not depend on the store. */
  lemma ListedValuesAgree(s1: Store, s2: Store, us: set<string>, digest: string -> string)
    requires KeysMatch(s1) && us <= s1.users.Keys && KeysMatch(s2) && us <= s2.users.Keys
    ensures MemberValues(MemberList(s1, SetToSeq(us))) == MemberValues(MemberList(s2, SetToSeq(us)))
  {
    var ids := SetToSeq(us);
    MemberValuesAgree(MemberList(s1, ids), MemberList(s2, ids));
  }

  /** The token input is decided by id, displayName, meta and the member values. */
  lemma TokenInputFromParts(a: GroupResource, b: GroupResource)
    requires a.id == b.id && a.displayName == b.displayName && a.meta == b.meta
    requires a.members.Some? == b.members.Some?
    requires a.members.Some? ==> MemberValues(a.members.value) == MemberValues(b.members.value)
    ensures GroupTokenInput(a) == GroupTokenInput(b)
  {
  }

  /** A non-empty membership is listed in the set's iteration order. */
  lemma MembersAreListed(s: Store, g: GroupEntity, digest: string -> string)
    requires KeysMatch(s) && g.members <= s.users.Keys && g.members != {}
    ensures MapToScimGroup(s, g, digest).members == Some(MemberList(s, SetToSeq(g.members)))
  {
  }

  /** The mapping of a group reads the users table and nothing else of the
      store: the group rows and the users' group sets play no part. */
  lemma {:induction false} MappingReadsUsersOnly(a: Store, b: Store, g: GroupEntity, digest: string -> string)
    requires KeysMatch(a) && KeysMatch(b) && a.users == b.users && g.members <= a.users.Keys
    ensures MapToScimGroup(a, g, digest) == MapToScimGroup(b, g, digest)
  {
    if g.members != {} {
      var ids := SetToSeq(g.members);
      assert MemberList(a, ids) == MemberList(b, ids);
      MembersAreListed(a, g, digest);
      MembersAreListed(b, g, digest);
    }
  }

  // -----------------------------------------------------------------------
  // Resolving a member list

  /** `findByExternalId(member.getValue())` finds a stored user. */
  predicate Resolves(s: Store, m: Member) {
    m.value.Some? && m.value.value in s.users
  }

  /** The user ids a member list names. */
  function MemberIds(ms: seq<Member>): (ids: set<string>)
    ensures forall k :: 0 <= k < |ms| && ms[k].value.Some? ==> ms[k].value.value in ids
    ensures forall u :: u in ids ==> exists k :: 0 <= k < |ms| && ms[k].value == Some(u)
  {
    set k | 0 <= k < |ms| && ms[k].value.Some? :: ms[k].value.value
  }

  /** The NotFound message for an unresolved member value. */
  function MemberNotFound(value: Option<string>): ServiceError {
    Protocol(ResourceNotFound(MEMBER_NOT_FOUND_PREFIX + Render(value)))
  }

  lemma MemberIdsSplit(ms: seq<Member>)
    requires |ms| > 0 && ms[0].value.Some?
    ensures MemberIds(ms) == {ms[0].value.value} + MemberIds(ms[1..])
  {
    forall u | u in MemberIds(ms) ensures u in {ms[0].value.value} + MemberIds(ms[1..]) {
      var k :| 0 <= k < |ms| && ms[k].value == Some(u);
      if k > 0 {
        assert ms[1..][k - 1] == ms[k];
      }
    }
    forall u | u in MemberIds(ms[1..]) ensures u in MemberIds(ms) {
      var k :| 0 <= k < |ms[1..]| && ms[1..][k].value == Some(u);
      assert ms[k + 1].value == Some(u);
    }
  }

  /** One round of the loop: after attaching the first member's user, the
      rest of the list behaves as the whole list does on the original store. */
  lemma AttachStep(s: Store, gid: string, ms: seq<Member>, s1: Store, rest: Result<Store, ServiceError>)
    requires KeysMatch(s) && gid in s.groups && |ms| > 0 && Resolves(s, ms[0])
    requires s1 == AttachAll(s, gid, {ms[0].value.value}) && s1.users.Keys == s.users.Keys
    requires rest.Ok? <==> forall k :: 0 <= k < |ms[1..]| ==> Resolves(s1, ms[1..][k])
    requires rest.Ok? ==> MemberIds(ms[1..]) <= s1.users.Keys && rest.value == AttachAll(s1, gid, MemberIds(ms[1..]))
    requires rest.Err? ==> exists k :: && 0 <= k < |ms[1..]| && !Resolves(s1, ms[1..][k])
                                      && (forall j :: 0 <= j < k ==> Resolves(s1, ms[1..][j]))
                                      && rest.error == MemberNotFound(ms[1..][k].value)
    ensures rest.Ok? <==> forall k :: 0 <= k < |ms| ==> Resolves(s, ms[k])
    ensures rest.Ok? ==> MemberIds(ms) <= s.users.Keys && rest.value == AttachAll(s, gid, MemberIds(ms))
    ensures rest.Err? ==> exists k :: && 0 <= k < |ms| && !Resolves(s, ms[k])
                                      && (forall j :: 0 <= j < k ==> Resolves(s, ms[j]))
                                      && rest.error == MemberNotFound(ms[k].value)
  {
    assert forall k :: 1 <= k < |ms| ==> ms[1..][k - 1] == ms[k];
    assert forall m :: Resolves(s1, m) == Resolves(s, m);
    if rest.Ok? {
      MemberIdsSplit(ms);
      AttachCompose(s, gid, ms[0].value.value, MemberIds(ms[1..]));
    } else {
      var k :| && 0 <= k < |ms[1..]| && !Resolves(s1, ms[1..][k])
               && (forall j :: 0 <= j < k ==> Resolves(s1, ms[1..][j]))
               && rest.error == MemberNotFound(ms[1..][k].value);
      assert forall j :: 0 <= j < k + 1 ==> Resolves(s, ms[j]);
    }
  }

  /** The loop `for (Member member : members) { user = find...orElseThrow;
      entity.addMember(user); }` on group `gid`: every member must resolve,
      the first one that does not ends the loop with NotFound, and the
      edges added are those to the users the list names. */
  function AttachEach(s: Store, gid: string, ms: seq<Member>): (r: Result<Store, ServiceError>)
    requires KeysMatch(s) && gid in s.groups
    ensures r.Ok? <==> forall k :: 0 <= k < |ms| ==> Resolves(s, ms[k])
    ensures r.Ok? ==> MemberIds(ms) <= s.users.Keys && r.value == AttachAll(s, gid, MemberIds(ms))
    ensures r.Err? ==> exists k :: && 0 <= k < |ms| && !Resolves(s, ms[k])
                                   && (forall j :: 0 <= j < k ==> Resolves(s, ms[j]))
                                   && r.error == MemberNotFound(ms[k].value)
    decreases |ms|
  {
    if |ms| == 0 then
      assert MemberIds(ms) == {};
      AttachNothing(s, gid);
      Ok(s)
    else if !Resolves(s, ms[0]) then
      Err(MemberNotFound(ms[0].value))
    else
      var u := ms[0].value.value;
      var s1 := Attach(s, gid, u);
      var rest := AttachEach(s1, gid, ms[1..]);
      AttachStep(s, gid, ms, s1, rest);
      rest
  }

  /** How many entries at the head of `ms` resolve: the loop attaches that
      many users and throws at the next entry, if there is one. */
  function ResolvedPrefix(s: Store, ms: seq<Member>): (n: nat)
    ensures n <= |ms|
    ensures forall j :: 0 <= j < n ==> Resolves(s, ms[j])
    ensures n < |ms| ==> !Resolves(s, ms[n])
    decreases |ms|
  {
    if |ms| == 0 || !Resolves(s, ms[0]) then 0
    else
      var n := 1 + ResolvedPrefix(s, ms[1..]);
      assert forall j :: 1 <= j < n ==> ms[j] == ms[1..][j - 1];
      n
  }

  /** A failed loop fails at the first unresolved entry, which is the one
      after the resolved prefix. */
  lemma {:induction false} AttachFailsAtPrefix(s: Store, gid: string, ms: seq<Member>)
    requires KeysMatch(s) && gid in s.groups && AttachEach(s, gid, ms).Err?
    ensures ResolvedPrefix(s, ms) < |ms|
    ensures AttachEach(s, gid, ms).error == MemberNotFound(ms[ResolvedPrefix(s, ms)].value)
  {
    var n := ResolvedPrefix(s, ms);
    var k :| && 0 <= k < |ms| && !Resolves(s, ms[k])
             && (forall j :: 0 <= j < k ==> Resolves(s, ms[j]))
             && AttachEach(s, gid, ms).error == MemberNotFound(ms[k].value);
    if n < k {
      assert false;
    } else if k < n {
      assert false;
    }
  }

  /** Only the users table decides how far the loop gets. */
  lemma {:induction false} PrefixFollowsUsers(a: Store, b: Store, ms: seq<Member>)
    requires a.users.Keys == b.users.Keys
    ensures ResolvedPrefix(a, ms) == ResolvedPrefix(b, ms)
    decreases |ms|
  {
    if |ms| > 0 {
      PrefixFollowsUsers(a, b, ms[1..]);
    }
  }

  /** The store the loop leaves when it throws: the edges to the users of
      the resolved prefix are attached, the rest are not. */
  function AttachedPrefix(s: Store, gid: string, ms: seq<Member>): (r: Store)
    requires KeysMatch(s) && gid in s.groups
    ensures MemberIds(ms[..ResolvedPrefix(s, ms)]) <= s.users.Keys
    ensures r == AttachAll(s, gid, MemberIds(ms[..ResolvedPrefix(s, ms)]))
    ensures KeysMatch(r) && r.users.Keys == s.users.Keys && r.groups.Keys == s.groups.Keys
  {
    var n := ResolvedPrefix(s, ms);
    assert forall k :: 0 <= k < |ms[..n]| ==> ms[..n][k] == ms[k];
    EdgesKeepRows(s, gid, MemberIds(ms[..n]));
    AttachEach(s, gid, ms[..n]).value
  }

  /** The requested membership of a replace or patch body: the ids its
      member list names, none for an absent list. */
  function Requested(r: GroupResource): set<string> {
    if r.members.Some? then MemberIds(r.members.value) else {}
  }

  /** The member list a replace walks: the sent one, or none when absent. */
  function SentMembers(r: GroupResource): (ms: seq<Member>)
    ensures MemberIds(ms) == Requested(r)
    ensures |ms| > 0 ==> r.members == Some(ms)
  {
    if r.members.Some? then r.members.value else []
  }

  /** `for (UserEntity user : existingMembers) entity.removeMember(user)`:
      every current member of `gid` loses the edge (in any order, by
      `Stores.DetachCompose`), and nothing else changes. */
  function ClearMembers(s: Store, gid: string): (r: Store)
    requires KeysMatch(s) && gid in s.groups
    ensures KeysMatch(r) && r.users.Keys == s.users.Keys && r.groups.Keys == s.groups.Keys
    ensures r.groups[gid] == s.groups[gid].(members := {})
    ensures forall g :: g in s.groups && g != gid ==> r.groups[g] == s.groups[g]
    ensures forall u :: u in s.users ==>
              r.users[u] == if u in s.groups[gid].members then s.users[u].(groups := s.users[u].groups - {gid})
                            else s.users[u]
  {
    EdgesKeepRows(s, gid, s.groups[gid].members);
    DetachAll(s, gid, s.groups[gid].members)
  }

  // -----------------------------------------------------------------------
  // Lifecycle

  /** The row `create` persists: a new entity with the drawn id and the
      resource's displayName, stamped by @PrePersist. */
  function NewGroupRow(r: GroupResource, id: string, now: Instant): (g: GroupEntity)
    ensures g.externalId == Some(id) && g.displayName == r.displayName && g.members == {}
    ensures g.createdAt == g.updatedAt == Some(now)
  {
    GroupOnCreate(NewGroup.(externalId := Some(id), displayName := r.displayName), now)
  }

  /** The member loop of `create` on the freshly inserted group `gid`;
      `s` is the store before the insert. An entry that does not resolve
      throws the checked ResourceNotFoundException, on which a Spring
      transaction commits rather than rolls back: the inserted row and the
      edges attached before the throw stay in the store. */
  ghost function PopulateNewGroup(s: Store, inserted: Store, gid: string, ms: seq<Member>, digest: string -> string)
    : (t: Txn<GroupResource>)
    requires KeysMatch(inserted) && gid in inserted.groups && inserted.groups[gid].members == {}
    requires inserted.users == s.users
    ensures t.result.Err? ==>
              && ResolvedPrefix(s, ms) < |ms|
              && t.result.error == MemberNotFound(ms[ResolvedPrefix(s, ms)].value)
              && t.store == AttachAll(inserted, gid, MemberIds(ms[..ResolvedPrefix(s, ms)]))
    ensures t.result.Err? ==> exists k :: 0 <= k < |ms| && !Resolves(s, ms[k]) && t.result.error == MemberNotFound(ms[k].value)
    ensures t.result.Ok? <==> forall k :: 0 <= k < |ms| ==> Resolves(s, ms[k])
    ensures t.result.Ok? ==>
              && KeysMatch(t.store) && t.store == AttachAll(inserted, gid, MemberIds(ms))
              && t.result.value == MapToScimGroup(t.store, t.store.groups[gid], digest)
  {
    match AttachEach(inserted, gid, ms)
    case Err(err) =>
      UnresolvedMember(inserted, s, gid, ms);
      AttachFailsAtPrefix(inserted, gid, ms);
      PrefixFollowsUsers(inserted, s, ms);
      Txn(AttachedPrefix(inserted, gid, ms), Err(err))
    case Ok(filled) =>
      EdgesKeepRows(inserted, gid, MemberIds(ms));
      assert inserted.groups[gid].members + MemberIds(ms) == MemberIds(ms);
      Txn(filled, Ok(MapToScimGroup(filled, filled.groups[gid], digest)))
  }

  /** `create(group)`: the row is inserted first (the IDENTITY key makes
      `save` insert at once, so a null or duplicate displayName fails here),
      then a non-empty member list is resolved and attached. */
  ghost function CreateGroup(s: Store, r: GroupResource, newId: string, now: Instant, digest: string -> string)
    : (t: Txn<GroupResource>)
    requires KeysMatch(s)
    ensures t.result.Err? && t.result.error == IntegrityViolation("groups") ==> t.store == s
    ensures newId in s.groups || !GroupWriteOk(s, newId, NewGroupRow(r, newId, now)) ==>
              t.result == Err(IntegrityViolation("groups"))
    ensures t.result.Err? && t.result.error != IntegrityViolation("groups") ==>
              && r.members.Some?
              && exists k :: 0 <= k < |r.members.value| && !Resolves(s, r.members.value[k])
                             && t.result.error == MemberNotFound(r.members.value[k].value)
    ensures t.result.Err? && t.result.error != IntegrityViolation("groups") ==>
              && r.members.Some?
              && var ms := r.members.value;
                 && ResolvedPrefix(s, ms) < |ms|
                 && t.result.error == MemberNotFound(ms[ResolvedPrefix(s, ms)].value)
                 && t.store == AttachAll(s.(groups := s.groups[newId := NewGroupRow(r, newId, now)]), newId,
                                         MemberIds(ms[..ResolvedPrefix(s, ms)]))
    ensures t.result.Ok? <==>
              && newId !in s.groups && GroupWriteOk(s, newId, NewGroupRow(r, newId, now))
              && (r.members.Some? ==> forall k :: 0 <= k < |r.members.value| ==> Resolves(s, r.members.value[k]))
    ensures t.result.Ok? ==>
              && KeysMatch(t.store)
              && t.store == AttachAll(s.(groups := s.groups[newId := NewGroupRow(r, newId, now)]), newId, Requested(r))
              && t.result.value == MapToScimGroup(t.store, t.store.groups[newId], digest)
  {
    var e := NewGroupRow(r, newId, now);
    if newId in s.groups || !GroupWriteOk(s, newId, e) then
      Txn(s, Err(IntegrityViolation("groups")))
    else
      var inserted := s.(groups := s.groups[newId := e]);
      if r.members.Some? && |r.members.value| > 0 then
        PopulateNewGroup(s, inserted, newId, r.members.value, digest)
      else
        assert Requested(r) == {};
        AttachNothing(inserted, newId);
        Txn(inserted, Ok(MapToScimGroup(inserted, e, digest)))
  }

  /** `get(id)`. */
  ghost function GetGroup(s: Store, id: string, digest: string -> string): (r: Result<GroupResource, ServiceError>)
    requires KeysMatch(s) && MembersResolve(s)
    ensures r.Ok? <==> id in s.groups
    ensures r.Ok? ==> r.value == MapToScimGroup(s, s.groups[id], digest)
    ensures r.Err? ==> r.error == Protocol(ResourceNotFound(GROUP_NOT_FOUND))
  {
    if id in s.groups then Ok(MapToScimGroup(s, s.groups[id], digest))
    else Err(Protocol(ResourceNotFound(GROUP_NOT_FOUND)))
  }

  /** A successful write answers `mapToScimGroup` of `row`, the entity as
      the service wrote it, before the flush stamps it, read over the
      committed store. */
  ghost predicate AnswersMapping(t: Txn<GroupResource>, row: GroupEntity, digest: string -> string) {
    t.result.Ok? ==>
      && KeysMatch(t.store) && row.members <= t.store.users.Keys
      && t.result.value == MapToScimGroup(t.store, row, digest)
  }

  /** The end of a replace or patch: `changed` is the store after the
      writes to group `id`, `s` the store the transaction began with. The
      flush stamps the row if displayName changed and the constraints are
      checked; the response was mapped before the flush. */
  ghost function CommitGroup(s: Store, changed: Store, id: string, now: Instant, digest: string -> string)
    : (t: Txn<GroupResource>)
    requires KeysMatch(changed) && id in s.groups && id in changed.groups
    requires changed.groups[id].members <= changed.users.Keys
    ensures t.result.Err? ==> t.store == s && t.result.error == IntegrityViolation("groups")
    ensures t.result.Ok? <==> GroupWriteOk(changed, id, FlushGroup(s.groups[id], changed.groups[id], now))
    ensures t.result.Ok? ==>
              && t.store == changed.(groups := changed.groups[id := FlushGroup(s.groups[id], changed.groups[id], now)])
              && t.result.value == MapToScimGroup(changed, changed.groups[id], digest)
    ensures AnswersMapping(t, changed.groups[id], digest)
  {
    var row := FlushGroup(s.groups[id], changed.groups[id], now);
    if GroupWriteOk(changed, id, row) then
      var committed := changed.(groups := changed.groups[id := row]);
      MappingReadsUsersOnly(changed, committed, changed.groups[id], digest);
      Txn(committed, Ok(MapToScimGroup(changed, changed.groups[id], digest)))
    else
      Txn(s, Err(IntegrityViolation("groups")))
  }

  /** The end of a replace or patch whose member loop threw `err`: the
      exception is a checked one, so the transaction commits what was
      written before it, with the same flush and constraint check as a
      success; a violated constraint replaces `err` with the database's
      error and rolls everything back. */
  ghost function AbortGroup(s: Store, changed: Store, id: string, now: Instant, err: ServiceError)
    : (t: Txn<GroupResource>)
    requires id in s.groups && id in changed.groups
    ensures t.result.Err?
    ensures GroupWriteOk(changed, id, FlushGroup(s.groups[id], changed.groups[id], now)) ==>
              t == Txn(changed.(groups := changed.groups[id := FlushGroup(s.groups[id], changed.groups[id], now)]), Err(err))
    ensures !GroupWriteOk(changed, id, FlushGroup(s.groups[id], changed.groups[id], now)) ==>
              t == Txn(s, Err(IntegrityViolation("groups")))
    ensures t.result.error != IntegrityViolation("groups") ==>
              && t.result.error == err
              && t.store.users == changed.users && t.store.groups.Keys == changed.groups.Keys
              && t.store.groups[id] == FlushGroup(s.groups[id], changed.groups[id], now)
  {
    var row := FlushGroup(s.groups[id], changed.groups[id], now);
    if GroupWriteOk(changed, id, row) then Txn(changed.(groups := changed.groups[id := row]), Err(err))
    else Txn(s, Err(IntegrityViolation("groups")))
  }

  /** The groups constraints on a write to `id` look at the other rows
      only, so two stores that agree off `id` agree on them. */
  lemma WriteOkFollowsOthers(a: Store, b: Store, id: string, row: GroupEntity)
    requires id in a.groups && a.groups.Keys == b.groups.Keys
    requires forall g :: g in a.groups && g != id ==> a.groups[g] == b.groups[g]
    ensures GroupWriteOk(a, id, row) == GroupWriteOk(b, id, row)
  {
    assert a.groups[id := row] == b.groups[id := row];
  }

  /** Lookup of group `id` and the If-Match check against its current token. */
  ghost function CheckCurrent(s: Store, id: string, ifMatch: Option<string>, digest: string -> string)
    : (r: Outcome<ServiceError>)
    requires KeysMatch(s) && MembersResolve(s)
    ensures r.Pass? <==> id in s.groups && ValidateETag(GroupVersion(s, s.groups[id], digest), ifMatch).Pass?
    ensures id !in s.groups ==> r == Fail(Protocol(ResourceNotFound(GROUP_NOT_FOUND)))
    ensures id in s.groups && r.Fail? ==> r == Fail(Protocol(PreconditionFailed("ETag mismatch")))
  {
    if id !in s.groups then Fail(Protocol(ResourceNotFound(GROUP_NOT_FOUND)))
    else
      match ValidateETag(GroupVersion(s, s.groups[id], digest), ifMatch)
      case Fail(ex) => Fail(Protocol(ex))
      case Pass => Pass
  }

  /** Clearing a group and attaching `us` leaves the group with exactly
      `us` as members and every other row's columns as they were. */
  lemma ClearThenAttach(s: Store, gid: string, us: set<string>)
    requires KeysMatch(s) && gid in s.groups && us <= s.users.Keys
    ensures var f := AttachAll(ClearMembers(s, gid), gid, us);
            && KeysMatch(f) && f.users.Keys == s.users.Keys && f.groups.Keys == s.groups.Keys
            && f.groups[gid] == s.groups[gid].(members := us)
            && (forall g :: g in s.groups && g != gid ==> f.groups[g] == s.groups[g])
  {
    var c := ClearMembers(s, gid);
    EdgesKeepRows(c, gid, us);
    assert {} + us == us;
  }

  /** A failed resolution names a member that resolves in no store with the same users. */
  lemma UnresolvedMember(c: Store, s: Store, gid: string, ms: seq<Member>)
    requires KeysMatch(c) && gid in c.groups && c.users.Keys == s.users.Keys
    requires AttachEach(c, gid, ms).Err?
    ensures exists k :: 0 <= k < |ms| && !Resolves(s, ms[k]) && AttachEach(c, gid, ms).error == MemberNotFound(ms[k].value)
  {
    var k :| 0 <= k < |ms| && !Resolves(c, ms[k]) && AttachEach(c, gid, ms).error == MemberNotFound(ms[k].value);
    assert !Resolves(s, ms[k]);
  }

  /** The membership writes shared by replace and patch: clear the group's
      edges, resolve and attach `ms`, then commit. `changed` is the store
      after the displayName write, `s` the store the transaction began with.
      An unresolved entry ends the loop with NotFound and the transaction
      commits the rename, the cleared edges and the edges to the resolved
      prefix. */
  ghost function ResetMembers(s: Store, changed: Store, id: string, ms: seq<Member>, now: Instant,
                              digest: string -> string): (t: Txn<GroupResource>)
    requires KeysMatch(changed) && id in s.groups
    requires changed.users.Keys == s.users.Keys && changed.groups.Keys == s.groups.Keys
    ensures t.result.Err? && t.result.error == IntegrityViolation("groups") ==> t.store == s
    ensures t.result.Ok? ==> forall k :: 0 <= k < |ms| ==> Resolves(s, ms[k])
    ensures t.result.Ok? <==>
              && (forall k :: 0 <= k < |ms| ==> Resolves(s, ms[k]))
              && GroupWriteOk(changed, id, FlushGroup(s.groups[id], changed.groups[id].(members := MemberIds(ms)), now))
    ensures t.result.Err? && t.result.error != IntegrityViolation("groups") ==>
              exists k :: 0 <= k < |ms| && !Resolves(s, ms[k]) && t.result.error == MemberNotFound(ms[k].value)
    ensures t.result.Err? && t.result.error != IntegrityViolation("groups") ==>
              var n := ResolvedPrefix(s, ms);
              && n < |ms| && t.result.error == MemberNotFound(ms[n].value)
              && t.store.groups.Keys == s.groups.Keys && t.store.users.Keys == s.users.Keys
              && t.store.groups[id] == FlushGroup(s.groups[id], changed.groups[id].(members := MemberIds(ms[..n])), now)
    ensures t.result.Ok? ==>
              && t.store.groups.Keys == s.groups.Keys && t.store.users.Keys == s.users.Keys
              && t.store.groups[id].displayName == changed.groups[id].displayName
              && t.store.groups[id].members == MemberIds(ms)
    ensures AnswersMapping(t, changed.groups[id].(members := MemberIds(ms)), digest)
  {
    if AttachEach(ClearMembers(changed, id), id, ms).Err? then ResetAborted(s, changed, id, ms, now)
    else ResetCommitted(s, changed, id, ms, now, digest)
  }

  /** ResetMembers when the loop throws. */
  ghost function ResetAborted(s: Store, changed: Store, id: string, ms: seq<Member>, now: Instant)
    : (t: Txn<GroupResource>)
    requires KeysMatch(changed) && id in s.groups
    requires changed.users.Keys == s.users.Keys && changed.groups.Keys == s.groups.Keys
    requires AttachEach(ClearMembers(changed, id), id, ms).Err?
    ensures t.result.Err? && ResolvedPrefix(s, ms) < |ms| && !Resolves(s, ms[ResolvedPrefix(s, ms)])
    ensures t.result.error == IntegrityViolation("groups") ==> t.store == s
    ensures t.result.error != IntegrityViolation("groups") ==>
              exists k :: 0 <= k < |ms| && !Resolves(s, ms[k]) && t.result.error == MemberNotFound(ms[k].value)
    ensures t.result.error != IntegrityViolation("groups") ==>
              var n := ResolvedPrefix(s, ms);
              && t.result.error == MemberNotFound(ms[n].value)
              && t.store.groups.Keys == s.groups.Keys && t.store.users.Keys == s.users.Keys
              && t.store.groups[id] == FlushGroup(s.groups[id], changed.groups[id].(members := MemberIds(ms[..n])), now)
  {
    var cleared := ClearMembers(changed, id);
    var err := AttachEach(cleared, id, ms).error;
    UnresolvedMember(cleared, s, id, ms);
    AbortedPrefix(s, changed, id, ms);
    var n := ResolvedPrefix(s, ms);
    var partial := AttachedPrefix(cleared, id, ms);
    assert FlushGroup(s.groups[id], partial.groups[id], now)
           == FlushGroup(s.groups[id], changed.groups[id].(members := MemberIds(ms[..n])), now);
    assert 0 <= n < |ms| && !Resolves(s, ms[n]) && err == MemberNotFound(ms[n].value);
    AbortGroup(s, partial, id, now, err)
  }

  /** A throwing loop after the clear fails at the entry after the resolved
      prefix and leaves the group with exactly the prefix's users. */
  lemma AbortedPrefix(s: Store, changed: Store, id: string, ms: seq<Member>)
    requires KeysMatch(changed) && id in s.groups
    requires changed.users.Keys == s.users.Keys && changed.groups.Keys == s.groups.Keys
    requires AttachEach(ClearMembers(changed, id), id, ms).Err?
    ensures var cleared := ClearMembers(changed, id);
            var n := ResolvedPrefix(s, ms);
            var partial := AttachedPrefix(cleared, id, ms);
            && n < |ms|
            && AttachEach(cleared, id, ms).error == MemberNotFound(ms[n].value)
            && partial.users.Keys == s.users.Keys && partial.groups.Keys == s.groups.Keys
            && partial.groups[id] == changed.groups[id].(members := MemberIds(ms[..n]))
  {
    var cleared := ClearMembers(changed, id);
    AttachFailsAtPrefix(cleared, id, ms);
    PrefixFollowsUsers(cleared, s, ms);
    var us := MemberIds(ms[..ResolvedPrefix(s, ms)]);
    var partial := AttachedPrefix(cleared, id, ms);
    assert partial.groups[id] == cleared.groups[id].(members := cleared.groups[id].members + us);
    assert cleared.groups[id].members == {};
    UnionWithEmpty(cleared.groups[id].members, us);
  }

  lemma UnionWithEmpty<T>(a: set<T>, b: set<T>)
    requires a == {}
    ensures a + b == b
  {
  }

  /** ResetMembers when every entry resolves. */
  ghost function ResetCommitted(s: Store, changed: Store, id: string, ms: seq<Member>, now: Instant,
                                digest: string -> string): (t: Txn<GroupResource>)
    requires KeysMatch(changed) && id in s.groups
    requires changed.users.Keys == s.users.Keys && changed.groups.Keys == s.groups.Keys
    requires AttachEach(ClearMembers(changed, id), id, ms).Ok?
    ensures forall k :: 0 <= k < |ms| ==> Resolves(s, ms[k])
    ensures t.result.Err? ==> t == Txn(s, Err(IntegrityViolation("groups")))
    ensures t.result.Ok? <==>
              GroupWriteOk(changed, id, FlushGroup(s.groups[id], changed.groups[id].(members := MemberIds(ms)), now))
    ensures t.result.Ok? ==>
              && t.store.groups.Keys == s.groups.Keys && t.store.users.Keys == s.users.Keys
              && t.store.groups[id].displayName == changed.groups[id].displayName
              && t.store.groups[id].members == MemberIds(ms)
    ensures AnswersMapping(t, changed.groups[id].(members := MemberIds(ms)), digest)
  {
    var cleared := ClearMembers(changed, id);
    assert forall m :: Resolves(cleared, m) == Resolves(s, m);
    var filled := AttachEach(cleared, id, ms).value;
    ResetFilled(s, changed, id, ms);
    CommitKeepsRow(s, filled, id, now, digest);
    WriteOkFollowsOthers(filled, changed, id, FlushGroup(s.groups[id], filled.groups[id], now));
    CommitGroup(s, filled, id, now, digest)
  }

  /** A successful re-attachment leaves the group with exactly the named
      members and the tables' keys as they were. */
  lemma ResetFilled(s: Store, changed: Store, id: string, ms: seq<Member>)
    requires KeysMatch(changed) && id in s.groups
    requires changed.users.Keys == s.users.Keys && changed.groups.Keys == s.groups.Keys
    requires AttachEach(ClearMembers(changed, id), id, ms).Ok?
    ensures var filled := AttachEach(ClearMembers(changed, id), id, ms).value;
            && KeysMatch(filled) && id in filled.groups && filled.groups[id].members <= filled.users.Keys
            && filled.users.Keys == s.users.Keys && filled.groups.Keys == s.groups.Keys
            && filled.groups[id] == changed.groups[id].(members := MemberIds(ms))
            && forall g :: g in changed.groups && g != id ==> filled.groups[g] == changed.groups[g]
  {
    ClearThenAttach(changed, id, MemberIds(ms));
  }

  /** A successful commit keeps the tables' keys and the written row's
      displayName and members. */
  lemma CommitKeepsRow(s: Store, changed: Store, id: string, now: Instant, digest: string -> string)
    requires KeysMatch(changed) && id in s.groups
    requires changed.users.Keys == s.users.Keys && changed.groups.Keys == s.groups.Keys
    requires changed.groups[id].members <= changed.users.Keys
    ensures var t := CommitGroup(s, changed, id, now, digest);
            t.result.Ok? ==>
              && t.store.groups.Keys == s.groups.Keys && t.store.users.Keys == s.users.Keys
              && t.store.groups[id].displayName == changed.groups[id].displayName
              && t.store.groups[id].members == changed.groups[id].members
  {
  }

  /** `replace(id, group, ifMatch)`: displayName is overwritten (with null
      when absent), every edge of the group is removed, the sent members are
      resolved and attached, and the row is committed. */
  ghost function ReplaceGroup(s: Store, id: string, r: GroupResource, ifMatch: Option<string>, now: Instant,
                              digest: string -> string): (t: Txn<GroupResource>)
    requires KeysMatch(s) && MembersResolve(s)
    ensures CheckCurrent(s, id, ifMatch, digest).Fail? ==> t.result == Err(CheckCurrent(s, id, ifMatch, digest).error)
    ensures CheckCurrent(s, id, ifMatch, digest).Fail? ==> t.store == s
    ensures CheckCurrent(s, id, ifMatch, digest).Pass? ==> t == ReplaceWrites(s, id, r, now, digest)
    ensures t.result.Err? && t.result.error == IntegrityViolation("groups") ==> t.store == s
    ensures t.result.Ok? <==>
              && CheckCurrent(s, id, ifMatch, digest).Pass?
              && (r.members.Some? ==> forall k :: 0 <= k < |r.members.value| ==> Resolves(s, r.members.value[k]))
              && GroupWriteOk(s, id, ReplacedRow(s, id, r, now))
    ensures t.result.Ok? ==>
              && CheckCurrent(s, id, ifMatch, digest).Pass?
              && (r.members.Some? ==> forall k :: 0 <= k < |r.members.value| ==> Resolves(s, r.members.value[k]))
              && t.store.groups.Keys == s.groups.Keys && t.store.users.Keys == s.users.Keys
              && t.store.groups[id].displayName == r.displayName
              && t.store.groups[id].members == Requested(r)
              && t.result.value.id == Some(id) && t.result.value.displayName == r.displayName
    ensures t.result.Ok? ==> id in s.groups && AnswersMapping(t, s.groups[id].(displayName := r.displayName, members := Requested(r)), digest)
  {
    match CheckCurrent(s, id, ifMatch, digest)
    case Fail(err) => Txn(s, Err(err))
    case Pass => ReplaceWrites(s, id, r, now, digest)
  }

  /** The writes of a replace once the If-Match check has passed. The code
      skips the attach loop for an absent or empty list; walking an empty
      list instead does the same. */
  ghost function ReplaceWrites(s: Store, id: string, r: GroupResource, now: Instant, digest: string -> string)
    : (t: Txn<GroupResource>)
    requires KeysMatch(s) && MembersResolve(s) && id in s.groups
    ensures t.result.Err? && t.result.error == IntegrityViolation("groups") ==> t.store == s
    ensures t.result.Ok? <==>
              && (r.members.Some? ==> forall k :: 0 <= k < |r.members.value| ==> Resolves(s, r.members.value[k]))
              && GroupWriteOk(s, id, ReplacedRow(s, id, r, now))
    ensures t.result.Err? && t.result.error != IntegrityViolation("groups") ==>
              && r.members.Some?
              && var ms := r.members.value;
                 var n := ResolvedPrefix(s, ms);
                 && n < |ms| && t.result.error == MemberNotFound(ms[n].value)
                 && t.store.groups.Keys == s.groups.Keys && t.store.users.Keys == s.users.Keys
                 && t.store.groups[id]
                    == FlushGroup(s.groups[id], s.groups[id].(displayName := r.displayName, members := MemberIds(ms[..n])), now)
    ensures t.result.Ok? ==>
              && (r.members.Some? ==> forall k :: 0 <= k < |r.members.value| ==> Resolves(s, r.members.value[k]))
              && t.store.groups.Keys == s.groups.Keys && t.store.users.Keys == s.users.Keys
              && t.store.groups[id].displayName == r.displayName
              && t.store.groups[id].members == Requested(r)
              && t.result.value.id == Some(id) && t.result.value.displayName == r.displayName
    ensures AnswersMapping(t, s.groups[id].(displayName := r.displayName, members := Requested(r)), digest)
  {
    var named := Renamed(s, id, r.displayName);
    var ms := SentMembers(r);
    assert named.groups[id].(members := MemberIds(ms)) == s.groups[id].(displayName := r.displayName, members := Requested(r));
    WriteOkFollowsOthers(named, s, id, ReplacedRow(s, id, r, now));
    ResetMembers(s, named, id, ms, now, digest)
  }

  /** `patch(id, group, ifMatch)`: displayName only when present; a present
      member list, even an empty one, replaces the whole membership. */
  ghost function PatchGroup(s: Store, id: string, r: GroupResource, ifMatch: Option<string>, now: Instant,
                            digest: string -> string): (t: Txn<GroupResource>)
    requires KeysMatch(s) && MembersResolve(s)
    ensures CheckCurrent(s, id, ifMatch, digest).Fail? ==> t.result == Err(CheckCurrent(s, id, ifMatch, digest).error)
    ensures CheckCurrent(s, id, ifMatch, digest).Fail? ==> t.store == s
    ensures CheckCurrent(s, id, ifMatch, digest).Pass? ==> t == PatchWrites(s, id, r, now, digest)
    ensures t.result.Err? && t.result.error == IntegrityViolation("groups") ==> t.store == s
    ensures t.result.Ok? <==>
              && CheckCurrent(s, id, ifMatch, digest).Pass?
              && (r.members.Some? ==> forall k :: 0 <= k < |r.members.value| ==> Resolves(s, r.members.value[k]))
              && GroupWriteOk(s, id, PatchedRow(s, id, r, now))
    ensures t.result.Ok? ==>
              && CheckCurrent(s, id, ifMatch, digest).Pass?
              && (r.members.Some? ==> forall k :: 0 <= k < |r.members.value| ==> Resolves(s, r.members.value[k]))
              && t.store.groups.Keys == s.groups.Keys && t.store.users.Keys == s.users.Keys
              && t.store.groups[id].displayName == (if r.displayName.Some? then r.displayName else s.groups[id].displayName)
              && t.store.groups[id].members == (if r.members.Some? then Requested(r) else s.groups[id].members)
    ensures t.result.Ok? ==> id in s.groups && AnswersMapping(t, s.groups[id].(displayName := PatchedName(s, id, r), members := PatchedMembers(s, id, r)),
                                                          digest)
  {
    match CheckCurrent(s, id, ifMatch, digest)
    case Fail(err) => Txn(s, Err(err))
    case Pass => PatchWrites(s, id, r, now, digest)
  }

  /** The writes of a patch once the If-Match check has passed. */
  ghost function PatchWrites(s: Store, id: string, r: GroupResource, now: Instant, digest: string -> string)
    : (t: Txn<GroupResource>)
    requires KeysMatch(s) && MembersResolve(s) && id in s.groups
    ensures t.result.Err? && t.result.error == IntegrityViolation("groups") ==> t.store == s
    ensures t.result.Ok? <==>
              && (r.members.Some? ==> forall k :: 0 <= k < |r.members.value| ==> Resolves(s, r.members.value[k]))
              && GroupWriteOk(s, id, PatchedRow(s, id, r, now))
    ensures t.result.Err? && t.result.error != IntegrityViolation("groups") ==>
              && r.members.Some?
              && var ms := r.members.value;
                 var n := ResolvedPrefix(s, ms);
                 && n < |ms| && t.result.error == MemberNotFound(ms[n].value)
                 && t.store.groups.Keys == s.groups.Keys && t.store.users.Keys == s.users.Keys
                 && t.store.groups[id]
                    == FlushGroup(s.groups[id], s.groups[id].(displayName := PatchedName(s, id, r), members := MemberIds(ms[..n])), now)
    ensures t.result.Ok? ==>
              && (r.members.Some? ==> forall k :: 0 <= k < |r.members.value| ==> Resolves(s, r.members.value[k]))
              && t.store.groups.Keys == s.groups.Keys && t.store.users.Keys == s.users.Keys
              && t.store.groups[id].displayName == (if r.displayName.Some? then r.displayName else s.groups[id].displayName)
              && t.store.groups[id].members == (if r.members.Some? then Requested(r) else s.groups[id].members)
    ensures AnswersMapping(t, s.groups[id].(displayName := PatchedName(s, id, r), members := PatchedMembers(s, id, r)),
                           digest)
  {
    var named := Renamed(s, id, PatchedName(s, id, r));
    if r.members.Some? then
      var ms := r.members.value;
      assert named.groups[id].(members := MemberIds(ms))
             == s.groups[id].(displayName := PatchedName(s, id, r), members := PatchedMembers(s, id, r));
      WriteOkFollowsOthers(named, s, id, PatchedRow(s, id, r, now));
      ResetMembers(s, named, id, ms, now, digest)
    else
      assert named.groups[id] == s.groups[id].(displayName := PatchedName(s, id, r), members := PatchedMembers(s, id, r));
      WriteOkFollowsOthers(named, s, id, PatchedRow(s, id, r, now));
      CommitGroup(s, named, id, now, digest)
  }

  /** The membership a patch leaves: the requested one when a list was sent,
      the stored one otherwise. */
  function PatchedMembers(s: Store, id: string, r: GroupResource): set<string>
    requires id in s.groups
  {
    if r.members.Some? then Requested(r) else s.groups[id].members
  }

  /** The row a successful replace commits: the sent displayName and the
      requested members over the loaded row, stamped by the flush. */
  function ReplacedRow(s: Store, id: string, r: GroupResource, now: Instant): (g: GroupEntity)
    requires id in s.groups
    ensures g.externalId == s.groups[id].externalId && g.createdAt == s.groups[id].createdAt
    ensures g.displayName == r.displayName && g.members == Requested(r)
    ensures g.updatedAt == if r.displayName != s.groups[id].displayName then Some(now) else s.groups[id].updatedAt
  {
    FlushGroup(s.groups[id], s.groups[id].(displayName := r.displayName, members := Requested(r)), now)
  }

  /** The row a successful patch commits. */
  function PatchedRow(s: Store, id: string, r: GroupResource, now: Instant): (g: GroupEntity)
    requires id in s.groups
    ensures g.externalId == s.groups[id].externalId && g.createdAt == s.groups[id].createdAt
    ensures r.displayName.Some? ==> g.displayName == r.displayName
    ensures r.displayName.None? ==> g.displayName == s.groups[id].displayName
    ensures r.members.Some? ==> g.members == Requested(r)
    ensures r.members.None? ==> g.members == s.groups[id].members
    ensures g.updatedAt == if g.displayName != s.groups[id].displayName then Some(now) else s.groups[id].updatedAt
  {
    FlushGroup(s.groups[id], s.groups[id].(displayName := PatchedName(s, id, r), members := PatchedMembers(s, id, r)), now)
  }

  /** The displayName a patch leaves: the sent one, or the stored one when absent. */
  function PatchedName(s: Store, id: string, r: GroupResource): Option<string>
    requires id in s.groups
  {
    if r.displayName.Some? then r.displayName else s.groups[id].displayName
  }

  /** The store with group `id` renamed in memory and nothing else touched. */
  function Renamed(s: Store, id: string, name: Option<string>): (n: Store)
    requires id in s.groups
    ensures n.users == s.users && n.groups.Keys == s.groups.Keys
    ensures n.groups[id] == s.groups[id].(displayName := name)
    ensures forall g :: g in s.groups && g != id ==> n.groups[g] == s.groups[g]
    ensures KeysMatch(s) ==> KeysMatch(n)
    ensures Symmetric(s) ==> Symmetric(n)
    ensures MembersResolve(s) ==> MembersResolve(n)
  {
    s.(groups := s.groups[id := s.groups[id].(displayName := name)])
  }

  /** `delete(id)`: only the group row goes. The join table belongs to the
      user side, so its rows stay and users keep the group's id in their
      sets; a read of the user no longer lists it
      (UserMapper.DeletedGroupNotListed). The join table's foreign key is
      not modelled. */
  function DeleteGroup(s: Store, id: string): (t: Txn<()>)
    ensures id !in s.groups ==> t == Txn(s, Err(Protocol(ResourceNotFound(GROUP_NOT_FOUND))))
    ensures id in s.groups ==> t.result.Ok? && t.store.groups == s.groups - {id} && t.store.users == s.users
  {
    if id !in s.groups then Txn(s, Err(Protocol(ResourceNotFound(GROUP_NOT_FOUND))))
    else Txn(RemoveGroupRow(s, id), Ok(()))
  }

  // -----------------------------------------------------------------------
  // What a membership rewrite leaves behind

  /** The store after group `id` is committed as `row` with members `us`,
      the edges on the user side following: a user lists `id` exactly when
      it is in `us`, and keeps every other group it listed. */
  function Relink(s: Store, id: string, row: GroupEntity, us: set<string>): (r: Store)
    requires id in s.groups
    ensures r.users.Keys == s.users.Keys && r.groups == s.groups[id := row]
    ensures forall u :: u in r.users ==> (id in r.users[u].groups <==> u in us)
    ensures forall u :: u in r.users ==>
              && r.users[u].groups - {id} == s.users[u].groups - {id}
              && r.users[u].(groups := s.users[u].groups) == s.users[u]
  {
    Store(map u | u in s.users :: s.users[u].(groups := if u in us then s.users[u].groups + {id}
                                                        else s.users[u].groups - {id}),
          s.groups[id := row])
  }

  /** A relink whose row passes the constraints keeps the store consistent. */
  lemma {:induction false} RelinkKeepsConsistency(s: Store, id: string, row: GroupEntity, us: set<string>)
    requires Consistent(s) && id in s.groups && us <= s.users.Keys
    requires row.members == us && GroupWriteOk(s, id, row)
    ensures Consistent(Relink(s, id, row, us))
  {
    var r := Relink(s, id, row, us);
    GroupWriteKeepsTables(s, id, row);
    forall k | k in r.users ensures UserRowValid(r.users, k) {
      assert UserRowValid(s.users, k);
    }
    assert TablesValid(s.(groups := s.groups[id := row]));
    forall g, u | g in r.groups && u in r.users
      ensures u in r.groups[g].members <==> g in r.users[u].groups
    {
      if g != id {
        assert u in s.groups[g].members <==> g in s.users[u].groups;
        assert g in r.users[u].groups <==> g in r.users[u].groups - {id};
        assert g in s.users[u].groups <==> g in s.users[u].groups - {id};
      }
    }
    forall g | g in r.groups ensures r.groups[g].members <= r.users.Keys {
      if g != id {
        assert s.groups[g].members <= s.users.Keys;
      }
    }
  }

  /** On a symmetric store, clearing group `id`, attaching `us` and writing
      `row` over it is a relink to `us`. */
  lemma {:induction false} ClearAttachWriteIsRelink(s: Store, id: string, us: set<string>, row: GroupEntity)
    requires KeysMatch(s) && Symmetric(s) && id in s.groups && us <= s.users.Keys
    ensures var f := AttachAll(ClearMembers(s, id), id, us);
            f.(groups := f.groups[id := row]) == Relink(s, id, row, us)
  {
    var f := AttachAll(ClearMembers(s, id), id, us);
    var l := f.(groups := f.groups[id := row]);
    var rl := Relink(s, id, row, us);
    forall u | u in s.users ensures l.users[u] == rl.users[u] {
      ClearAttachUser(s, id, us, row, u);
    }
    assert l.users == rl.users;
    assert l.groups == rl.groups;
  }

  /** One user's row after clearing group `id` and attaching `us`, on a
      symmetric store: it lists `id` exactly when it is in `us`. */
  lemma ClearAttachUser(s: Store, id: string, us: set<string>, row: GroupEntity, u: string)
    requires KeysMatch(s) && Symmetric(s) && id in s.groups && u in s.users
    ensures AttachAll(ClearMembers(s, id), id, us).users[u] == Relink(s, id, row, us).users[u]
  {
    assert u in s.groups[id].members <==> id in s.users[u].groups;
    if u !in s.groups[id].members {
      assert s.users[u].groups - {id} == s.users[u].groups;
    }
    assert s.users[u].groups - {id} + {id} == s.users[u].groups + {id};
  }

  /** On a symmetric store, writing `row` with the group's current members
      is a relink to those members. */
  lemma {:induction false} WriteIsRelink(s: Store, id: string, row: GroupEntity)
    requires KeysMatch(s) && Symmetric(s) && id in s.groups
    ensures s.(groups := s.groups[id := row]) == Relink(s, id, row, s.groups[id].members)
  {
    var rl := Relink(s, id, row, s.groups[id].members);
    forall u | u in s.users ensures s.users[u] == rl.users[u] {
      assert u in s.groups[id].members <==> id in s.users[u].groups;
      if u in s.groups[id].members {
        assert s.users[u].groups + {id} == s.users[u].groups;
      } else {
        assert s.users[u].groups - {id} == s.users[u].groups;
      }
    }
    assert s.users == rl.users;
  }

  /** A successful membership reset on a symmetric store whose users are
      those of `s` and whose groups differ from `s` only at `id` is a
      relink of `s` to the ids the list names. */
  lemma {:induction false} ResetMembersRelinks(s: Store, changed: Store, id: string, ms: seq<Member>, now: Instant,
                                               digest: string -> string)
    requires KeysMatch(changed) && Symmetric(changed) && id in s.groups
    requires changed.users == s.users && changed.groups.Keys == s.groups.Keys
    requires forall g :: g in s.groups && g != id ==> changed.groups[g] == s.groups[g]
    requires ResetMembers(s, changed, id, ms, now, digest).result.Ok?
    ensures var row := FlushGroup(s.groups[id], changed.groups[id].(members := MemberIds(ms)), now);
            && GroupWriteOk(s, id, row)
            && ResetMembers(s, changed, id, ms, now, digest).store == Relink(s, id, row, MemberIds(ms))
  {
    var cleared := ClearMembers(changed, id);
    var filled := AttachEach(cleared, id, ms).value;
    var us := MemberIds(ms);
    ClearThenAttach(changed, id, us);
    var row := FlushGroup(s.groups[id], filled.groups[id], now);
    ClearAttachWriteIsRelink(changed, id, us, row);
    assert changed.groups[id := row] == s.groups[id := row];
    assert filled.groups[id := row] == s.groups[id := row];
  }

  /** A membership reset whose loop threw, on a symmetric store whose users
      are those of `s` and whose groups differ from `s` only at `id`, and
      whose commit passed the constraints, is a relink of `s` to the users
      of the resolved prefix. */
  lemma {:induction false} ResetAbortedRelinks(s: Store, changed: Store, id: string, ms: seq<Member>, now: Instant)
    requires KeysMatch(changed) && Symmetric(changed) && id in s.groups
    requires changed.users == s.users && changed.groups.Keys == s.groups.Keys
    requires forall g :: g in s.groups && g != id ==> changed.groups[g] == s.groups[g]
    requires AttachEach(ClearMembers(changed, id), id, ms).Err?
    requires ResetAborted(s, changed, id, ms, now).result.error != IntegrityViolation("groups")
    ensures var us := MemberIds(ms[..ResolvedPrefix(s, ms)]);
            var row := FlushGroup(s.groups[id], changed.groups[id].(members := us), now);
            && us <= s.users.Keys && row.members == us && GroupWriteOk(s, id, row)
            && ResetAborted(s, changed, id, ms, now).store == Relink(s, id, row, us)
  {
    var cleared := ClearMembers(changed, id);
    PrefixFollowsUsers(cleared, s, ms);
    PrefixStored(s, ms);
    var us := MemberIds(ms[..ResolvedPrefix(s, ms)]);
    var partial := AttachedPrefix(cleared, id, ms);
    ClearThenAttach(changed, id, us);
    var row := FlushGroup(s.groups[id], partial.groups[id], now);
    assert partial.groups[id] == changed.groups[id].(members := us);
    WriteOkFollowsOthers(partial, s, id, row);
    ClearAttachWriteIsRelink(changed, id, us, row);
    assert changed.groups[id := row] == s.groups[id := row];
    assert partial.groups[id := row] == s.groups[id := row];
  }

  /** A replace whose member loop threw on a consistent store commits a
      relink of the group to the users of the resolved prefix, under the
      sent displayName, and the store stays consistent. */
  lemma {:induction false} ReplaceWritesFailureRelinks(s: Store, id: string, r: GroupResource, now: Instant,
                                                       digest: string -> string)
    requires Consistent(s) && id in s.groups
    requires ReplaceWrites(s, id, r, now, digest).result.Err?
    requires ReplaceWrites(s, id, r, now, digest).result.error != IntegrityViolation("groups")
    ensures r.members.Some?
    ensures var us := MemberIds(r.members.value[..ResolvedPrefix(s, r.members.value)]);
            var row := FlushGroup(s.groups[id], s.groups[id].(displayName := r.displayName, members := us), now);
            var t := ReplaceWrites(s, id, r, now, digest);
            && GroupWriteOk(s, id, row)
            && t.store == Relink(s, id, row, us)
            && Consistent(t.store)
  {
    var named := Renamed(s, id, r.displayName);
    var ms := SentMembers(r);
    assert ReplaceWrites(s, id, r, now, digest) == ResetMembers(s, named, id, ms, now, digest);
    assert AttachEach(ClearMembers(named, id), id, ms).Err?;
    assert ReplaceWrites(s, id, r, now, digest) == ResetAborted(s, named, id, ms, now);
    ResetAbortedRelinks(s, named, id, ms, now);
    var us := MemberIds(ms[..ResolvedPrefix(s, ms)]);
    assert named.groups[id].(members := us) == s.groups[id].(displayName := r.displayName, members := us);
    RelinkKeepsConsistency(s, id, FlushGroup(s.groups[id], named.groups[id].(members := us), now), us);
  }

  /** A patch whose member loop threw on a consistent store commits a relink
      of the group to the users of the resolved prefix, under the patched
      displayName, and the store stays consistent. */
  lemma {:induction false} PatchWritesFailureRelinks(s: Store, id: string, r: GroupResource, now: Instant,
                                                     digest: string -> string)
    requires Consistent(s) && id in s.groups
    requires PatchWrites(s, id, r, now, digest).result.Err?
    requires PatchWrites(s, id, r, now, digest).result.error != IntegrityViolation("groups")
    ensures r.members.Some?
    ensures var us := MemberIds(r.members.value[..ResolvedPrefix(s, r.members.value)]);
            var row := FlushGroup(s.groups[id], s.groups[id].(displayName := PatchedName(s, id, r), members := us), now);
            var t := PatchWrites(s, id, r, now, digest);
            && GroupWriteOk(s, id, row)
            && t.store == Relink(s, id, row, us)
            && Consistent(t.store)
  {
    var named := Renamed(s, id, PatchedName(s, id, r));
    var ms := r.members.value;
    assert PatchWrites(s, id, r, now, digest) == ResetMembers(s, named, id, ms, now, digest);
    assert AttachEach(ClearMembers(named, id), id, ms).Err?;
    assert PatchWrites(s, id, r, now, digest) == ResetAborted(s, named, id, ms, now);
    ResetAbortedRelinks(s, named, id, ms, now);
    var us := MemberIds(ms[..ResolvedPrefix(s, ms)]);
    assert named.groups[id].(members := us) == s.groups[id].(displayName := PatchedName(s, id, r), members := us);
    RelinkKeepsConsistency(s, id, FlushGroup(s.groups[id], named.groups[id].(members := us), now), us);
  }

  /** A successful replace on a consistent store relinks the group to the
      requested members, with a row that passed the constraints. */
  lemma {:induction false} ReplaceGroupRelinks(s: Store, id: string, r: GroupResource, ifMatch: Option<string>,
                                               now: Instant, digest: string -> string)
    requires Consistent(s)
    requires ReplaceGroup(s, id, r, ifMatch, now, digest).result.Ok?
    ensures id in s.groups && GroupWriteOk(s, id, ReplacedRow(s, id, r, now))
    ensures ReplaceGroup(s, id, r, ifMatch, now, digest).store == Relink(s, id, ReplacedRow(s, id, r, now), Requested(r))
  {
    assert ReplaceGroup(s, id, r, ifMatch, now, digest) == ReplaceWrites(s, id, r, now, digest);
    ReplaceWritesRelink(s, id, r, now, digest);
  }

  lemma {:induction false} ReplaceWritesRelink(s: Store, id: string, r: GroupResource, now: Instant,
                                               digest: string -> string)
    requires Consistent(s) && id in s.groups
    requires ReplaceWrites(s, id, r, now, digest).result.Ok?
    ensures GroupWriteOk(s, id, ReplacedRow(s, id, r, now))
    ensures ReplaceWrites(s, id, r, now, digest).store == Relink(s, id, ReplacedRow(s, id, r, now), Requested(r))
  {
    var named := Renamed(s, id, r.displayName);
    var ms := SentMembers(r);
    assert named.groups[id].(members := Requested(r)) == s.groups[id].(displayName := r.displayName, members := Requested(r));
    assert ReplaceWrites(s, id, r, now, digest) == ResetMembers(s, named, id, ms, now, digest);
    ResetMembersRelinks(s, named, id, ms, now, digest);
  }

  /** The commit of a group whose edges were left alone is a relink to its own members. */
  lemma {:induction false} KeepWriteRelinks(s: Store, changed: Store, id: string, now: Instant, digest: string -> string)
    requires KeysMatch(changed) && Symmetric(changed) && MembersResolve(changed) && id in s.groups
    requires changed.users == s.users && changed.groups.Keys == s.groups.Keys
    requires forall g :: g in s.groups && g != id ==> changed.groups[g] == s.groups[g]
    requires changed.groups[id].members == s.groups[id].members
    requires CommitGroup(s, changed, id, now, digest).result.Ok?
    ensures var row := FlushGroup(s.groups[id], changed.groups[id], now);
            && GroupWriteOk(s, id, row)
            && CommitGroup(s, changed, id, now, digest).store == Relink(s, id, row, s.groups[id].members)
  {
    var row := FlushGroup(s.groups[id], changed.groups[id], now);
    assert changed.groups[id].(members := s.groups[id].members) == changed.groups[id];
    WriteIsRelink(changed, id, row);
    assert changed.groups[id := row] == s.groups[id := row];
  }

  /** A successful patch on a consistent store relinks the group to the
      requested members when a list was sent, and to its own members when not. */
  lemma {:induction false} PatchGroupRelinks(s: Store, id: string, r: GroupResource, ifMatch: Option<string>,
                                             now: Instant, digest: string -> string)
    requires Consistent(s)
    requires PatchGroup(s, id, r, ifMatch, now, digest).result.Ok?
    ensures id in s.groups && GroupWriteOk(s, id, PatchedRow(s, id, r, now))
    ensures PatchGroup(s, id, r, ifMatch, now, digest).store == Relink(s, id, PatchedRow(s, id, r, now), PatchedMembers(s, id, r))
  {
    assert PatchGroup(s, id, r, ifMatch, now, digest) == PatchWrites(s, id, r, now, digest);
    PatchWritesRelink(s, id, r, now, digest);
  }

  lemma {:induction false} PatchWritesRelink(s: Store, id: string, r: GroupResource, now: Instant,
                                             digest: string -> string)
    requires Consistent(s) && id in s.groups
    requires PatchWrites(s, id, r, now, digest).result.Ok?
    ensures GroupWriteOk(s, id, PatchedRow(s, id, r, now))
    ensures PatchWrites(s, id, r, now, digest).store == Relink(s, id, PatchedRow(s, id, r, now), PatchedMembers(s, id, r))
  {
    var named := Renamed(s, id, PatchedName(s, id, r));
    assert named.groups[id].(members := PatchedMembers(s, id, r))
           == s.groups[id].(displayName := PatchedName(s, id, r), members := PatchedMembers(s, id, r));
    if r.members.Some? {
      assert PatchWrites(s, id, r, now, digest) == ResetMembers(s, named, id, r.members.value, now, digest);
      ResetMembersRelinks(s, named, id, r.members.value, now, digest);
    } else {
      assert PatchWrites(s, id, r, now, digest) == CommitGroup(s, named, id, now, digest);
      KeepWriteRelinks(s, named, id, now, digest);
    }
  }

  // -----------------------------------------------------------------------
  // Invariants the writes keep

  /** Every id a fully resolved member list names is a stored user. */
  lemma RequestedStored(s: Store, r: GroupResource)
    requires r.members.Some? ==> forall k :: 0 <= k < |r.members.value| ==> Resolves(s, r.members.value[k])
    ensures Requested(r) <= s.users.Keys
  {
    if r.members.Some? {
      forall u | u in Requested(r) ensures u in s.users {
        var k :| 0 <= k < |r.members.value| && r.members.value[k].value == Some(u);
        assert Resolves(s, r.members.value[k]);
      }
    }
  }

  /** A replace keeps the store consistent, whatever it answers: a success
      and a member failure both commit a relink, every other error rolls
      back. */
  lemma {:induction false} ReplaceGroupKeepsConsistency(s: Store, id: string, r: GroupResource, ifMatch: Option<string>,
                                                        now: Instant, digest: string -> string)
    requires Consistent(s)
    ensures Consistent(ReplaceGroup(s, id, r, ifMatch, now, digest).store)
  {
    var t := ReplaceGroup(s, id, r, ifMatch, now, digest);
    if t.result.Ok? {
      ReplaceGroupRelinks(s, id, r, ifMatch, now, digest);
      RequestedStored(s, r);
      RelinkKeepsConsistency(s, id, ReplacedRow(s, id, r, now), Requested(r));
    } else if CheckCurrent(s, id, ifMatch, digest).Pass? && t.result.error != IntegrityViolation("groups") {
      ReplaceWritesFailureRelinks(s, id, r, now, digest);
    }
  }

  /** A patch keeps the store consistent, whatever it answers. */
  lemma {:induction false} PatchGroupKeepsConsistency(s: Store, id: string, r: GroupResource, ifMatch: Option<string>,
                                                      now: Instant, digest: string -> string)
    requires Consistent(s)
    ensures Consistent(PatchGroup(s, id, r, ifMatch, now, digest).store)
  {
    var t := PatchGroup(s, id, r, ifMatch, now, digest);
    if t.result.Ok? {
      PatchGroupRelinks(s, id, r, ifMatch, now, digest);
      RequestedStored(s, r);
      assert s.groups[id].members <= s.users.Keys;
      RelinkKeepsConsistency(s, id, PatchedRow(s, id, r, now), PatchedMembers(s, id, r));
    } else if CheckCurrent(s, id, ifMatch, digest).Pass? && t.result.error != IntegrityViolation("groups") {
      PatchWritesFailureRelinks(s, id, r, now, digest);
    }
  }

  /** The store right after the IDENTITY insert of `create` is consistent
      when the id is fresh and the row passes the constraints. */
  lemma {:induction false} InsertKeepsConsistency(s: Store, id: string, e: GroupEntity)
    requires Consistent(s) && FreshGroupId(s, id)
    requires e.members == {} && GroupWriteOk(s, id, e)
    ensures Consistent(s.(groups := s.groups[id := e]))
  {
    var t := s.(groups := s.groups[id := e]);
    GroupWriteKeepsTables(s, id, e);
    forall g, u | g in t.groups && u in t.users
      ensures u in t.groups[g].members <==> g in t.users[u].groups
    {
      if g != id {
        assert u in s.groups[g].members <==> g in s.users[u].groups;
      }
    }
    forall g | g in t.groups ensures t.groups[g].members <= t.users.Keys {
      if g != id {
        assert s.groups[g].members <= s.users.Keys;
      }
    }
  }

  /** Inserting a fresh group and attaching stored users `us` gives a
      consistent store in which exactly the users in `us` list the group. */
  lemma {:induction false} InsertThenAttach(s: Store, id: string, e: GroupEntity, us: set<string>)
    requires Consistent(s) && FreshGroupId(s, id) && us <= s.users.Keys
    requires e.members == {} && GroupWriteOk(s, id, e)
    ensures var f := AttachAll(s.(groups := s.groups[id := e]), id, us);
            && Consistent(f) && id in f.groups && f.groups[id].members == us
            && forall u :: u in f.users ==> (id in f.users[u].groups <==> u in us)
  {
    var inserted := s.(groups := s.groups[id := e]);
    InsertKeepsConsistency(s, id, e);
    AttachKeepsConsistency(inserted, id, us);
    var f := AttachAll(inserted, id, us);
    assert {} + us == us;
    forall u | u in f.users ensures id in f.users[u].groups <==> u in us {
      assert id !in s.users[u].groups;
    }
  }

  /** A successful create under a fresh id keeps the store consistent, and
      the new group's members are exactly the requested users, each of
      whom lists the group. */
  lemma {:induction false} CreateGroupKeepsConsistency(s: Store, r: GroupResource, newId: string, now: Instant,
                                                       digest: string -> string)
    requires Consistent(s) && FreshGroupId(s, newId)
    requires CreateGroup(s, r, newId, now, digest).result.Ok?
    ensures var t := CreateGroup(s, r, newId, now, digest);
            && Consistent(t.store) && newId in t.store.groups
            && t.store.groups[newId].members == Requested(r)
            && forall u :: u in t.store.users ==> (newId in t.store.users[u].groups <==> u in Requested(r))
  {
    RequestedStored(s, r);
    InsertThenAttach(s, newId, NewGroupRow(r, newId, now), Requested(r));
  }

  /** The users the loop attached before it threw are stored users. */
  lemma PrefixStored(s: Store, ms: seq<Member>)
    ensures MemberIds(ms[..ResolvedPrefix(s, ms)]) <= s.users.Keys
  {
    var n := ResolvedPrefix(s, ms);
    forall u | u in MemberIds(ms[..n]) ensures u in s.users {
      var k :| 0 <= k < |ms[..n]| && ms[..n][k].value == Some(u);
      assert Resolves(s, ms[k]);
    }
  }

  /** A create that fails on a member after a good insert commits a
      consistent store: the new group exists with exactly the users of the
      resolved prefix as members, and those users, and only they, list it. */
  lemma {:induction false} CreateGroupFailureKeepsConsistency(s: Store, r: GroupResource, newId: string, now: Instant,
                                                              digest: string -> string)
    requires Consistent(s) && FreshGroupId(s, newId)
    requires CreateGroup(s, r, newId, now, digest).result.Err?
    requires CreateGroup(s, r, newId, now, digest).result.error != IntegrityViolation("groups")
    ensures r.members.Some?
    ensures var t := CreateGroup(s, r, newId, now, digest);
            var us := MemberIds(r.members.value[..ResolvedPrefix(s, r.members.value)]);
            && Consistent(t.store) && newId in t.store.groups
            && t.store.groups[newId] == NewGroupRow(r, newId, now).(members := us)
            && forall u :: u in t.store.users ==> (newId in t.store.users[u].groups <==> u in us)
  {
    var ms := r.members.value;
    var e := NewGroupRow(r, newId, now);
    PrefixStored(s, ms);
    InsertThenAttach(s, newId, e, MemberIds(ms[..ResolvedPrefix(s, ms)]));
  }

  /** What `create` returns is what a later `get` of the new id returns. */
  lemma {:induction false} CreateThenGetGroup(s: Store, r: GroupResource, newId: string, now: Instant,
                                              digest: string -> string)
    requires Consistent(s) && FreshGroupId(s, newId)
    requires CreateGroup(s, r, newId, now, digest).result.Ok?
    ensures var t := CreateGroup(s, r, newId, now, digest);
            && Consistent(t.store)
            && GetGroup(t.store, newId, digest) == Ok(t.result.value)
            && CheckCurrent(t.store, newId, t.result.value.meta.value.version, digest).Pass?
  {
    CreateGroupKeepsConsistency(s, r, newId, now, digest);
  }

  /** Deleting a group keeps the four invariants: none of them looks at a
      user's list of groups without a group row to match. */
  lemma {:induction false} DeleteGroupKeepsConsistency(s: Store, id: string)
    requires Consistent(s)
    ensures Consistent(DeleteGroup(s, id).store)
  {
    var t := DeleteGroup(s, id).store;
    forall k | k in t.groups ensures GroupRowValid(t.groups, k) {
      assert GroupRowValid(s.groups, k);
    }
    forall g, u | g in t.groups && u in t.users
      ensures u in t.groups[g].members <==> g in t.users[u].groups
    {
      assert u in s.groups[g].members <==> g in s.users[u].groups;
    }
  }

  /** But it leaves every former member listing the deleted id: the group
      side does not own the join table, so no edge row is removed, and the
      user's groups no longer all resolve. */
  lemma {:induction false} DeleteGroupLeavesDanglingIds(s: Store, id: string, u: string)
    requires Consistent(s) && id in s.groups && u in s.groups[id].members
    ensures var t := DeleteGroup(s, id);
            && t.result.Ok? && id !in t.store.groups
            && u in t.store.users && id in t.store.users[u].groups
            && !GroupsResolve(t.store)
  {
    assert u in s.users;
    assert u in s.groups[id].members <==> id in s.users[u].groups;
  }

  // -----------------------------------------------------------------------
  // The token a write returns

  /** A successful write whose response carries the token the committed
      row of group `id` now has. */
  ghost predicate CarriesCurrentTag(t: Txn<GroupResource>, id: string, digest: string -> string) {
    && t.result.Ok? && KeysMatch(t.store)
    && id in t.store.groups && t.store.groups[id].members <= t.store.users.Keys
    && t.result.value.meta.Some?
    && t.result.value.meta.value.version == Some(GroupVersion(t.store, t.store.groups[id], digest))
  }

  /** The response of a commit is mapped before the flush, yet it carries
      the committed row's token: the flush changes timestamps only. */
  lemma {:induction false} CommitReturnsCurrentTag(s: Store, changed: Store, id: string, now: Instant,
                                                   digest: string -> string)
    requires KeysMatch(changed) && id in s.groups && id in changed.groups
    requires changed.groups[id].members <= changed.users.Keys
    requires CommitGroup(s, changed, id, now, digest).result.Ok?
    ensures CarriesCurrentTag(CommitGroup(s, changed, id, now, digest), id, digest)
  {
    var t := CommitGroup(s, changed, id, now, digest);
    var row := FlushGroup(s.groups[id], changed.groups[id], now);
    assert t.store.groups[id] == row;
    VersionIgnoresTimestamps(changed, changed.groups[id], t.store, row, digest);
  }

  lemma {:induction false} ResetMembersReturnsCurrentTag(s: Store, changed: Store, id: string, ms: seq<Member>,
                                                         now: Instant, digest: string -> string)
    requires KeysMatch(changed) && id in s.groups
    requires changed.users.Keys == s.users.Keys && changed.groups.Keys == s.groups.Keys
    requires ResetMembers(s, changed, id, ms, now, digest).result.Ok?
    ensures CarriesCurrentTag(ResetMembers(s, changed, id, ms, now, digest), id, digest)
  {
    var cleared := ClearMembers(changed, id);
    var filled := AttachEach(cleared, id, ms).value;
    ClearThenAttach(changed, id, MemberIds(ms));
    assert ResetMembers(s, changed, id, ms, now, digest) == CommitGroup(s, filled, id, now, digest);
    CommitReturnsCurrentTag(s, filled, id, now, digest);
  }

  lemma {:induction false} ReplaceWritesReturnCurrentTag(s: Store, id: string, r: GroupResource, now: Instant,
                                                         digest: string -> string)
    requires KeysMatch(s) && MembersResolve(s) && id in s.groups
    requires ReplaceWrites(s, id, r, now, digest).result.Ok?
    ensures CarriesCurrentTag(ReplaceWrites(s, id, r, now, digest), id, digest)
  {
    var named := Renamed(s, id, r.displayName);
    var ms := SentMembers(r);
    assert ReplaceWrites(s, id, r, now, digest) == ResetMembers(s, named, id, ms, now, digest);
    ResetMembersReturnsCurrentTag(s, named, id, ms, now, digest);
  }

  lemma {:induction false} PatchWritesReturnCurrentTag(s: Store, id: string, r: GroupResource, now: Instant,
                                                       digest: string -> string)
    requires KeysMatch(s) && MembersResolve(s) && id in s.groups
    requires PatchWrites(s, id, r, now, digest).result.Ok?
    ensures CarriesCurrentTag(PatchWrites(s, id, r, now, digest), id, digest)
  {
    var named := Renamed(s, id, PatchedName(s, id, r));
    if r.members.Some? {
      assert PatchWrites(s, id, r, now, digest) == ResetMembers(s, named, id, r.members.value, now, digest);
      ResetMembersReturnsCurrentTag(s, named, id, r.members.value, now, digest);
    } else {
      assert PatchWrites(s, id, r, now, digest) == CommitGroup(s, named, id, now, digest);
      CommitReturnsCurrentTag(s, named, id, now, digest);
    }
  }

  /** The token a successful replace returns is accepted as If-Match by the
      next replace or patch of the same group. */
  lemma {:induction false} ReplaceGroupReturnsCurrentTag(s: Store, id: string, r: GroupResource, ifMatch: Option<string>,
                                                         now: Instant, digest: string -> string)
    requires Consistent(s)
    requires ReplaceGroup(s, id, r, ifMatch, now, digest).result.Ok?
    ensures var t := ReplaceGroup(s, id, r, ifMatch, now, digest);
            && Consistent(t.store) && t.result.value.meta.Some?
            && CheckCurrent(t.store, id, t.result.value.meta.value.version, digest).Pass?
  {
    assert ReplaceGroup(s, id, r, ifMatch, now, digest) == ReplaceWrites(s, id, r, now, digest);
    ReplaceWritesReturnCurrentTag(s, id, r, now, digest);
    ReplaceGroupKeepsConsistency(s, id, r, ifMatch, now, digest);
  }

  /** Likewise for patch. */
  lemma {:induction false} PatchGroupReturnsCurrentTag(s: Store, id: string, r: GroupResource, ifMatch: Option<string>,
                                                       now: Instant, digest: string -> string)
    requires Consistent(s)
    requires PatchGroup(s, id, r, ifMatch, now, digest).result.Ok?
    ensures var t := PatchGroup(s, id, r, ifMatch, now, digest);
            && Consistent(t.store) && t.result.value.meta.Some?
            && CheckCurrent(t.store, id, t.result.value.meta.value.version, digest).Pass?
  {
    assert PatchGroup(s, id, r, ifMatch, now, digest) == PatchWrites(s, id, r, now, digest);
    PatchWritesReturnCurrentTag(s, id, r, now, digest);
    PatchGroupKeepsConsistency(s, id, r, ifMatch, now, digest);
  }

  // -----------------------------------------------------------------------
  // Search

  /** `findAll(pageable)` without a sort: every group id once, in the
      model's table order. */
  ghost function GroupListing(s: Store): (ids: seq<string>)
    ensures |ids| == |s.groups|
    ensures forall k :: 0 <= k < |ids| ==> ids[k] in s.groups
    ensures forall g :: g in s.groups ==> g in ids
  {
    SetToSeq(s.groups.Keys)
  }

  /** The page index handed to `PageRequest.of`: `startIndex - 1` in int
      arithmetic, so Integer.MIN_VALUE wraps round to Integer.MAX_VALUE. */
  function PageIndex(startIndex: Option<int>): (p: int)
    requires startIndex.Some? ==> INT_MIN <= startIndex.value <= INT_MAX
    ensures startIndex.None? ==> p == 0
    ensures startIndex.Some? && startIndex.value > INT_MIN ==> p == startIndex.value - 1
    ensures startIndex == Some(INT_MIN) ==> p == INT_MAX
  {
    if startIndex.Some? then ToInt32(startIndex.value - 1) else 0
  }

  /** The mapping of each listed group, in order. */
  ghost function MapGroups(s: Store, ids: seq<string>, digest: string -> string): (rs: seq<GroupResource>)
    requires KeysMatch(s) && MembersResolve(s) && forall k :: 0 <= k < |ids| ==> ids[k] in s.groups
    ensures |rs| == |ids|
    ensures forall k :: 0 <= k < |ids| ==> rs[k] == MapToScimGroup(s, s.groups[ids[k]], digest)
  {
    seq(|ids|, k requires 0 <= k < |ids| => MapToScimGroup(s, s.groups[ids[k]], digest))
  }

  /** `search(startIndex, count, filter)`: the filter is not consulted;
      `PageRequest.of` rejects a negative page index and a size below one,
      `findAll` an offset beyond Integer.MAX_VALUE, and nothing catches
      either; itemsPerPage echoes the requested count, not the number
      returned. */
  ghost function SearchGroups(s: Store, startIndex: Option<int>, count: Option<int>, filter: Option<string>,
                              digest: string -> string): (r: Result<ListResponse<GroupResource>, ServiceError>)
    requires KeysMatch(s) && MembersResolve(s)
    requires startIndex.Some? ==> INT_MIN <= startIndex.value <= INT_MAX
    ensures r.Err? <==>
              || PageIndex(startIndex) < 0 || count.GetOr(DEFAULT_PAGE_SIZE) < 1
              || !OffsetFits(PageIndex(startIndex), count.GetOr(DEFAULT_PAGE_SIZE))
    ensures r.Err? ==>
              r.error == if PageIndex(startIndex) < 0 || count.GetOr(DEFAULT_PAGE_SIZE) < 1 then InvalidPageRequest
                         else OffsetOutOfRange
    ensures r.Ok? ==>
              && r.value.totalResults == ToInt32(|s.groups|)
              && r.value.startIndex == startIndex.GetOr(1)
              && r.value.itemsPerPage == count.GetOr(DEFAULT_PAGE_SIZE)
              && |r.value.resources| <= count.GetOr(DEFAULT_PAGE_SIZE)
  {
    var page := PageIndex(startIndex);
    var size := count.GetOr(DEFAULT_PAGE_SIZE);
    if page < 0 || size < 1 then Err(InvalidPageRequest)
    else if !OffsetFits(page, size) then Err(OffsetOutOfRange)
    else
      var ids := PageOf(GroupListing(s), page, size);
      Ok(ListResponse(MapGroups(s, ids, digest), ToInt32(|s.groups|), startIndex.GetOr(1), size))
  }

  /** A one-based startIndex p + 1 with count n lists page p of the table. */
  lemma {:induction false} SearchGroupsListsPage(s: Store, p: nat, n: nat, digest: string -> string)
    requires KeysMatch(s) && MembersResolve(s)
    requires 0 < n <= INT_MAX && p < INT_MAX && p * n <= INT_MAX
    ensures var r := SearchGroups(s, Some(p + 1), Some(n), None, digest);
            && r.Ok?
            && r.value.resources == MapGroups(s, PageOf(GroupListing(s), p, n), digest)
  {
    assert PageIndex(Some(p + 1)) == p;
  }

  /** The mapping of the group at position `k` of the table scan. */
  ghost function GroupAt(s: Store, k: nat, digest: string -> string): (g: GroupResource)
    requires KeysMatch(s) && MembersResolve(s) && k < |s.groups|
    ensures g.id == Some(GroupListing(s)[k])
  {
    MapToScimGroup(s, s.groups[GroupListing(s)[k]], digest)
  }

  /** The search with one-based startIndex `q + 1` and count `n` succeeds
      and shows, as its entry `j`, the group at table position `k`. */
  ghost predicate PageShows(s: Store, q: nat, n: nat, j: nat, k: nat, digest: string -> string)
    requires KeysMatch(s) && MembersResolve(s) && k < |s.groups| && q < INT_MAX && n <= INT_MAX
  {
    ListedAt(SearchGroups(s, Some(q + 1), Some(n), None, digest), j, GroupAt(s, k, digest))
  }

  /** A search answer that succeeded and carries `g` as its entry `j`. */
  predicate ListedAt(r: Result<ListResponse<GroupResource>, ServiceError>, j: nat, g: GroupResource) {
    r.Ok? && j < |r.value.resources| && r.value.resources[j] == g
  }

  /** The group at table position k = q * n + j is entry j of the page
      that startIndex q + 1 with count n asks for. */
  lemma {:induction false} SearchGroupsPageEntry(s: Store, n: nat, q: nat, j: nat, k: nat, digest: string -> string)
    requires KeysMatch(s) && MembersResolve(s)
    requires 0 < n <= INT_MAX && q < INT_MAX && j < n && q * n + j == k && k < |s.groups| < INT_MAX
    ensures PageShows(s, q, n, j, k, digest)
  {
    var xs := GroupListing(s);
    assert OffsetFits(q, n);
    SearchGroupsListsPage(s, q, n, digest);
    PageEntryAt(xs, q, n, j, k);
    var page := PageOf(xs, q, n);
    var r := SearchGroups(s, Some(q + 1), Some(n), None, digest);
    assert r.value.resources == MapGroups(s, page, digest);
    assert r.value.resources[j] == MapToScimGroup(s, s.groups[page[j]], digest);
  }

  /** Paging with a fixed count reaches every group: the group at table
      position k is entry k % n of the page that startIndex k / n + 1 asks for. */
  lemma {:induction false} SearchGroupsReachesEveryGroup(s: Store, n: nat, k: nat, digest: string -> string)
    requires KeysMatch(s) && MembersResolve(s)
    requires 0 < n <= INT_MAX && |s.groups| < INT_MAX && k < |s.groups|
    ensures PageShows(s, k / n, n, k % n, k, digest)
  {
    DivBounds(k, n);
    SearchGroupsPageEntry(s, n, k / n, k % n, k, digest);
  }

  /** startIndex 0 and count 0 are rejected; Integer.MIN_VALUE wraps round
      to the last possible page, whose offset overflows an int; so does
      startIndex 30,000,000 under the default count, while count 1 there
      reads an empty page; itemsPerPage echoes the count even when fewer
      groups come back. */
  lemma SearchGroupsEdgeCases(s: Store, digest: string -> string)
    requires KeysMatch(s) && MembersResolve(s) && |s.groups| == 2
    ensures SearchGroups(s, Some(0), None, None, digest) == Err(InvalidPageRequest)
    ensures SearchGroups(s, None, Some(0), None, digest) == Err(InvalidPageRequest)
    ensures SearchGroups(s, Some(INT_MIN), None, None, digest) == Err(OffsetOutOfRange)
    ensures SearchGroups(s, Some(30_000_000), None, None, digest) == Err(OffsetOutOfRange)
    ensures var r := SearchGroups(s, Some(30_000_000), Some(1), None, digest);
            r.Ok? && r.value.resources == [] && r.value.startIndex == 30_000_000
    ensures var r := SearchGroups(s, None, Some(10), None, digest);
            r.Ok? && |r.value.resources| == 2 && r.value.itemsPerPage == 10 && r.value.totalResults == 2
  {
    assert PageIndex(Some(INT_MIN)) == INT_MAX;
    assert PageOf(GroupListing(s), 29_999_999, 1) == [];
  }
}
