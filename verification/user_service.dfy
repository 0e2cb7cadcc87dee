/** ScimUserService: the User resource lifecycle (create, get, replace,
    patch, delete, search) over the store, the entity-to-resource mapping it
    answers with, the version token in that mapping and the If-Match check.

    Every writing operation is one transaction: an error leaves the store
    as it was. `now` is the instant the clock reports when the hooks run,
    `newId` the random UUID a create draws, and `digest` the SHA-1-then-hex
    function the version token applies. */
module UserService {
  import opened Wrappers
  import opened Instants
  import opened JavaText
  import opened ScimTypes
  import opened ScimErrors
  import opened Entities
  import opened Stores
  import opened VersionTags
  import opened FilterParser
  import opened Paging
  import opened Enumeration
  import ScimMetaModel

  const USER_NOT_FOUND: string := "User not found"
  const USERNAME_EXISTS: string := "Username already exists"
  const DEFAULT_PAGE_SIZE: int := 100

  // -----------------------------------------------------------------------
  // Entity to resource

  /** The name attribute: present when either stored name is, formatted as
      "first last" or as whichever of the two exists. */
  function NameOf(first: Option<string>, last: Option<string>): (n: Option<Name>)
    ensures n.Some? <==> first.Some? || last.Some?
    ensures n.Some? ==> n.value.givenName == first && n.value.familyName == last
    ensures first.Some? && last.Some? ==> n.value.formatted == Some(first.value + " " + last.value)
    ensures first.Some? != last.Some? ==> n.Some? && n.value.formatted == (if first.Some? then first else last)
  {
    if first.None? && last.None? then None
    else
      var formatted :=
        if first.Some? && last.Some? then Some(first.value + " " + last.value)
        else if first.Some? then first
        else last;
      Some(Name(formatted, last, first))
  }

  /** The emails attribute: one primary work address when the row has an email. */
  function EmailsOf(email: Option<string>): (es: Option<seq<Email>>)
    ensures es.Some? <==> email.Some?
    ensures es.Some? ==> |es.value| == 1 && es.value[0].value == email
                         && es.value[0].primary == Some(true) && es.value[0].emailType == Some("work")
  {
    if email.Some? then Some([Email(email, Some(true), Some("work"))]) else None
  }

  /** The string the user token digests: id, userName, displayName and
      active as Java concatenation renders them, then the lastModified term. */
  function UserTokenInput(r: UserResource): string {
    Render(r.id) + Render(r.userName) + Render(r.displayName) + RenderBool(r.active) + LastModifiedTerm(r.meta)
  }

  function UserETag(r: UserResource, digest: string -> string): string {
    WeakTag(digest(UserTokenInput(r)))
  }

  /** `mapToScimUser(entity)`. The token is computed before the meta is
      attached, so its lastModified term is empty. Groups are not mapped. */
  function MapToScimUser(e: UserEntity, digest: string -> string): (r: UserResource)
    ensures r.id == e.externalId && r.userName == e.userName && r.displayName == e.displayName
    ensures r.active == Some(e.active)
    ensures r.name == NameOf(e.firstName, e.lastName)
    ensures r.emails == EmailsOf(e.email)
    ensures r.groups.None?
    ensures r.meta.Some? && r.meta.value.resourceType == Some("User")
    ensures r.meta.value.location == Some(USERS_PATH + Render(e.externalId))
    ensures r.meta.value.created == ScimMetaModel.InstantToCalendar(e.createdAt)
    ensures r.meta.value.lastModified == ScimMetaModel.InstantToCalendar(e.updatedAt)
    ensures r.meta.value.version ==
              Some(WeakTag(digest(Render(e.externalId) + Render(e.userName) + Render(e.displayName)
                                  + (if e.active then "true" else "false"))))
  {
    var base := UserResource(e.externalId, e.userName, e.displayName, Some(e.active),
                             NameOf(e.firstName, e.lastName), EmailsOf(e.email), None, None);
    assert UserTokenInput(base) == Render(e.externalId) + Render(e.userName) + Render(e.displayName)
                                   + (if e.active then "true" else "false");
    var meta := Meta(Some("User"),
                     ScimMetaModel.InstantToCalendar(e.createdAt),
                     ScimMetaModel.InstantToCalendar(e.updatedAt),
                     Some(USERS_PATH + Render(e.externalId)),
                     Some(UserETag(base, digest)));
    base.(meta := Some(meta))
  }

  /** The version token a stored user currently carries. */
  function CurrentVersion(e: UserEntity, digest: string -> string): string {
    MapToScimUser(e, digest).meta.value.version.value
  }

  // -----------------------------------------------------------------------
  // Resource to entity

  predicate HasEmail(r: UserResource) {
    r.emails.Some? && |r.emails.value| > 0
  }

  predicate HasGivenName(r: UserResource) {
    r.name.Some? && r.name.value.givenName.Some?
  }

  predicate HasFamilyName(r: UserResource) {
    r.name.Some? && r.name.value.familyName.Some?
  }

  /** `updateEntityFromScim(entity, user)`, used by create and replace:
      userName, displayName and active are overwritten whatever they hold,
      nulls included; email and the two names only when supplied. */
  function UpdateEntityFromScim(e: UserEntity, r: UserResource): (u: UserEntity)
    requires r.active.Some?
    ensures u.userName == r.userName && u.displayName == r.displayName && u.active == r.active.value
    ensures u.email == (if HasEmail(r) then r.emails.value[0].value else e.email)
    ensures u.firstName == (if HasGivenName(r) then r.name.value.givenName else e.firstName)
    ensures u.lastName == (if HasFamilyName(r) then r.name.value.familyName else e.lastName)
    ensures u.externalId == e.externalId && u.groups == e.groups
    ensures u.createdAt == e.createdAt && u.updatedAt == e.updatedAt
  {
    e.(userName := r.userName,
       displayName := r.displayName,
       active := r.active.value,
       email := if HasEmail(r) then r.emails.value[0].value else e.email,
       firstName := if HasGivenName(r) then r.name.value.givenName else e.firstName,
       lastName := if HasFamilyName(r) then r.name.value.familyName else e.lastName)
  }

  /** The field writes of `patch`: each of userName, displayName, active,
      first email, givenName and familyName is written only when supplied. */
  function ApplyPatch(e: UserEntity, r: UserResource): (u: UserEntity)
    ensures u.userName == (if r.userName.Some? then r.userName else e.userName)
    ensures u.displayName == (if r.displayName.Some? then r.displayName else e.displayName)
    ensures u.active == (if r.active.Some? then r.active.value else e.active)
    ensures u.email == (if HasEmail(r) then r.emails.value[0].value else e.email)
    ensures u.firstName == (if HasGivenName(r) then r.name.value.givenName else e.firstName)
    ensures u.lastName == (if HasFamilyName(r) then r.name.value.familyName else e.lastName)
    ensures u.externalId == e.externalId && u.groups == e.groups
    ensures u.createdAt == e.createdAt && u.updatedAt == e.updatedAt
  {
    e.(userName := if r.userName.Some? then r.userName else e.userName,
       displayName := if r.displayName.Some? then r.displayName else e.displayName,
       active := if r.active.Some? then r.active.value else e.active,
       email := if HasEmail(r) then r.emails.value[0].value else e.email,
       firstName := if HasGivenName(r) then r.name.value.givenName else e.firstName,
       lastName := if HasFamilyName(r) then r.name.value.familyName else e.lastName)
  }

  /** Writing a user's own mapping back changes nothing, by either route. */
  lemma MappingRoundTrip(e: UserEntity, digest: string -> string)
    ensures UpdateEntityFromScim(e, MapToScimUser(e, digest)) == e
    ensures ApplyPatch(e, MapToScimUser(e, digest)) == e
  {
  }

  /** Replace and patch differ only on absent userName, displayName and
      active: replace clears the first two (and needs active), patch keeps
      all three. With all three present they write the same row. */
  lemma ReplaceVersusPatch(e: UserEntity, r: UserResource)
    requires r.active.Some?
    ensures r.userName.Some? && r.displayName.Some? ==> UpdateEntityFromScim(e, r) == ApplyPatch(e, r)
    ensures r.userName.None? ==> UpdateEntityFromScim(e, r).userName.None? && ApplyPatch(e, r).userName == e.userName
    ensures r.displayName.None? ==> UpdateEntityFromScim(e, r).displayName.None? && ApplyPatch(e, r).displayName == e.displayName
  {
  }

  // -----------------------------------------------------------------------
  // The version token

  /** Two rows equal on externalId, userName, displayName and active carry
      the same token whatever their email, names, groups or timestamps. */
  lemma VersionIgnoresOtherFields(a: UserEntity, b: UserEntity, digest: string -> string)
    requires a.externalId == b.externalId && a.userName == b.userName
    requires a.displayName == b.displayName && a.active == b.active
    ensures CurrentVersion(a, digest) == CurrentVersion(b, digest)
  {
  }

  /** When the rendered id, userName and displayName have the same lengths
      in two resources without meta, their token inputs are equal exactly
      when the four rendered fields are. */
  lemma {:induction false} TokenInputSeparatesAlignedFields(a: UserResource, b: UserResource)
    requires a.meta.None? && b.meta.None?
    requires |Render(a.id)| == |Render(b.id)|
    requires |Render(a.userName)| == |Render(b.userName)|
    requires |Render(a.displayName)| == |Render(b.displayName)|
    ensures UserTokenInput(a) == UserTokenInput(b) <==>
              && Render(a.id) == Render(b.id) && Render(a.userName) == Render(b.userName)
              && Render(a.displayName) == Render(b.displayName) && RenderBool(a.active) == RenderBool(b.active)
  {
    var x := UserTokenInput(a);
    var y := UserTokenInput(b);
    var i1 := |Render(a.id)|;
    var i2 := i1 + |Render(a.userName)|;
    var i3 := i2 + |Render(a.displayName)|;
    if x == y {
      assert x[..i1] == Render(a.id) && y[..i1] == Render(b.id);
      assert x[i1..i2] == Render(a.userName) && y[i1..i2] == Render(b.userName);
      assert x[i2..i3] == Render(a.displayName) && y[i2..i3] == Render(b.displayName);
      assert x[i3..] == RenderBool(a.active) && y[i3..] == RenderBool(b.active);
    }
  }

  /** Without such alignment the concatenation is ambiguous: userName "a"
      with displayName "bc" digests the same string as "ab" with "c". */
  lemma TokenInputAmbiguous(id: Option<string>, active: Option<bool>)
    ensures UserTokenInput(UserResource(id, Some("a"), Some("bc"), active, None, None, None, None))
         == UserTokenInput(UserResource(id, Some("ab"), Some("c"), active, None, None, None, None))
  {
    assert Render(id) + "a" + "bc" == Render(id) + "ab" + "c";
  }

  // -----------------------------------------------------------------------
  // Lifecycle

  /** `existsByUserName(userName)`: some stored row has that userName (a
      null argument matches rows whose user_name is null). */
  predicate UserNameTaken(s: Store, userName: Option<string>) {
    exists k :: k in s.users && s.users[k].userName == userName
  }

  /** The row `create` persists: a new entity with the drawn id, filled
      from the resource, stamped by @PrePersist. */
  function NewUserRow(r: UserResource, id: string, now: Instant): (e: UserEntity)
    requires r.active.Some?
    ensures e.externalId == Some(id) && e.groups == {}
    ensures e.userName == r.userName && e.displayName == r.displayName && e.active == r.active.value
    ensures e.email == (if HasEmail(r) then r.emails.value[0].value else None)
    ensures e.firstName == (if HasGivenName(r) then r.name.value.givenName else None)
    ensures e.lastName == (if HasFamilyName(r) then r.name.value.familyName else None)
    ensures e.createdAt == e.updatedAt == Some(now)
  {
    UserOnCreate(UpdateEntityFromScim(NewUser.(externalId := Some(id)), r), now)
  }

  /** `create(user)`: a taken userName is a uniqueness error before anything
      is written; otherwise the new row is inserted, and the insert fails on
      a table constraint (null or duplicate userName or email, a duplicate
      external id). */
  function CreateUser(s: Store, r: UserResource, newId: string, now: Instant, digest: string -> string): (t: Txn<UserResource>)
    requires r.active.Some?
    ensures t.result.Err? ==> t.store == s
    ensures UserNameTaken(s, r.userName) ==> t.result == Err(Protocol(Uniqueness(USERNAME_EXISTS)))
    ensures !UserNameTaken(s, r.userName) && t.result.Err? ==> t.result.error == IntegrityViolation("users")
    ensures t.result.Ok? <==>
              !UserNameTaken(s, r.userName) && newId !in s.users && UserWriteOk(s, newId, NewUserRow(r, newId, now))
    ensures t.result.Ok? ==>
              && t.store == s.(users := s.users[newId := NewUserRow(r, newId, now)])
              && t.result.value == MapToScimUser(NewUserRow(r, newId, now), digest)
  {
    if UserNameTaken(s, r.userName) then
      Txn(s, Err(Protocol(Uniqueness(USERNAME_EXISTS))))
    else
      var e := NewUserRow(r, newId, now);
      if newId in s.users || !UserWriteOk(s, newId, e) then
        Txn(s, Err(IntegrityViolation("users")))
      else
        Txn(s.(users := s.users[newId := e]), Ok(MapToScimUser(e, digest)))
  }

  /** `get(id)`. */
  function GetUser(s: Store, id: string, digest: string -> string): (r: Result<UserResource, ServiceError>)
    ensures r.Ok? <==> id in s.users
    ensures r.Ok? ==> r.value == MapToScimUser(s.users[id], digest)
    ensures r.Err? ==> r.error == Protocol(ResourceNotFound(USER_NOT_FOUND))
  {
    if id in s.users then Ok(MapToScimUser(s.users[id], digest))
    else Err(Protocol(ResourceNotFound(USER_NOT_FOUND)))
  }

  /** The commit of a replace or patch: the flush stamps the row if a
      column changed and the constraints are checked; the response was
      mapped before the flush, so it carries the loaded updatedAt. */
  function CommitUser(s: Store, id: string, loaded: UserEntity, changed: UserEntity, now: Instant,
                      digest: string -> string): (t: Txn<UserResource>)
    ensures t.result.Err? ==> t.store == s && t.result.error == IntegrityViolation("users")
    ensures t.result.Ok? <==> UserWriteOk(s, id, FlushUser(loaded, changed, now))
    ensures t.result.Ok? ==> t.store == s.(users := s.users[id := FlushUser(loaded, changed, now)])
    ensures t.result.Ok? ==> t.result.value == MapToScimUser(changed, digest)
  {
    var row := FlushUser(loaded, changed, now);
    if UserWriteOk(s, id, row) then Txn(s.(users := s.users[id := row]), Ok(MapToScimUser(changed, digest)))
    else Txn(s, Err(IntegrityViolation("users")))
  }

  /** `replace(id, user, ifMatch)`: lookup, then the If-Match check against
      the current token, then the full overwrite. */
  function ReplaceUser(s: Store, id: string, r: UserResource, ifMatch: Option<string>, now: Instant,
                       digest: string -> string): (t: Txn<UserResource>)
    requires r.active.Some?
    ensures t.result.Err? ==> t.store == s
    ensures id !in s.users ==> t.result == Err(Protocol(ResourceNotFound(USER_NOT_FOUND)))
    ensures id in s.users && ValidateETag(CurrentVersion(s.users[id], digest), ifMatch).Fail? ==>
              t.result == Err(Protocol(PreconditionFailed("ETag mismatch")))
    ensures t.result.Ok? ==>
              && id in s.users
              && ValidateETag(CurrentVersion(s.users[id], digest), ifMatch).Pass?
              && t.store == s.(users := s.users[id := FlushUser(s.users[id], UpdateEntityFromScim(s.users[id], r), now)])
              && t.result.value == MapToScimUser(UpdateEntityFromScim(s.users[id], r), digest)
    ensures t.result.Ok? <==>
              && id in s.users
              && ValidateETag(CurrentVersion(s.users[id], digest), ifMatch).Pass?
              && UserWriteOk(s, id, FlushUser(s.users[id], UpdateEntityFromScim(s.users[id], r), now))
    ensures id in s.users && ValidateETag(CurrentVersion(s.users[id], digest), ifMatch).Pass? && t.result.Err? ==>
              t.result.error == IntegrityViolation("users")
  {
    if id !in s.users then Txn(s, Err(Protocol(ResourceNotFound(USER_NOT_FOUND))))
    else
      var loaded := s.users[id];
      match ValidateETag(CurrentVersion(loaded, digest), ifMatch)
      case Fail(ex) => Txn(s, Err(Protocol(ex)))
      case Pass => CommitUser(s, id, loaded, UpdateEntityFromScim(loaded, r), now, digest)
  }

  /** `patch(id, user, ifMatch)`: as replace, with the partial field writes. */
  function PatchUser(s: Store, id: string, r: UserResource, ifMatch: Option<string>, now: Instant,
                     digest: string -> string): (t: Txn<UserResource>)
    ensures t.result.Err? ==> t.store == s
    ensures id !in s.users ==> t.result == Err(Protocol(ResourceNotFound(USER_NOT_FOUND)))
    ensures id in s.users && ValidateETag(CurrentVersion(s.users[id], digest), ifMatch).Fail? ==>
              t.result == Err(Protocol(PreconditionFailed("ETag mismatch")))
    ensures t.result.Ok? ==>
              && id in s.users
              && ValidateETag(CurrentVersion(s.users[id], digest), ifMatch).Pass?
              && t.store == s.(users := s.users[id := FlushUser(s.users[id], ApplyPatch(s.users[id], r), now)])
              && t.result.value == MapToScimUser(ApplyPatch(s.users[id], r), digest)
    ensures t.result.Ok? <==>
              && id in s.users
              && ValidateETag(CurrentVersion(s.users[id], digest), ifMatch).Pass?
              && UserWriteOk(s, id, FlushUser(s.users[id], ApplyPatch(s.users[id], r), now))
    ensures id in s.users && ValidateETag(CurrentVersion(s.users[id], digest), ifMatch).Pass? && t.result.Err? ==>
              t.result.error == IntegrityViolation("users")
  {
    if id !in s.users then Txn(s, Err(Protocol(ResourceNotFound(USER_NOT_FOUND))))
    else
      var loaded := s.users[id];
      match ValidateETag(CurrentVersion(loaded, digest), ifMatch)
      case Fail(ex) => Txn(s, Err(Protocol(ex)))
      case Pass => CommitUser(s, id, loaded, ApplyPatch(loaded, r), now, digest)
  }

  /** `delete(id)`: the row goes, and with it the user's join-table rows. */
  function DeleteUser(s: Store, id: string): (t: Txn<()>)
    ensures id !in s.users ==> t == Txn(s, Err(Protocol(ResourceNotFound(USER_NOT_FOUND))))
    ensures id in s.users ==> t.result.Ok? && t.store.users == s.users - {id}
    ensures id in s.users ==> forall g :: g in t.store.groups ==> id !in t.store.groups[g].members
    ensures id in s.users ==> t.store.groups.Keys == s.groups.Keys
    ensures id in s.users ==>
              forall g :: g in t.store.groups ==> t.store.groups[g] == s.groups[g].(members := s.groups[g].members - {id})
  {
    if id !in s.users then Txn(s, Err(Protocol(ResourceNotFound(USER_NOT_FOUND))))
    else Txn(RemoveUserRow(s, id), Ok(()))
  }

  // -----------------------------------------------------------------------
  // Properties of the lifecycle

  /** What create answers is what a later get answers. */
  lemma CreateThenGet(s: Store, r: UserResource, newId: string, now: Instant, digest: string -> string)
    requires r.active.Some?
    requires CreateUser(s, r, newId, now, digest).result.Ok?
    ensures var t := CreateUser(s, r, newId, now, digest);
            GetUser(t.store, newId, digest) == Ok(t.result.value)
  {
  }

  /** A replace that sends back exactly what get returned, guarded by the
      token get returned, writes nothing and answers the same resource. */
  lemma ReplaceWithCurrentIsNoOp(s: Store, id: string, now: Instant, digest: string -> string)
    requires Consistent(s) && id in s.users
    ensures var cur := MapToScimUser(s.users[id], digest);
            ReplaceUser(s, id, cur, cur.meta.value.version, now, digest) == Txn(s, Ok(cur))
  {
    var e := s.users[id];
    var cur := MapToScimUser(e, digest);
    MappingRoundTrip(e, digest);
    assert FlushUser(e, e, now) == e;
    assert UserRowValid(s.users, id);
    assert s.users[id := e] == s.users;
  }

  /** Create keeps the store consistent: the new row passed the table
      constraints and has no edges yet. */
  lemma CreateUserKeepsConsistency(s: Store, r: UserResource, newId: string, now: Instant, digest: string -> string)
    requires Consistent(s) && r.active.Some?
    ensures Consistent(CreateUser(s, r, newId, now, digest).store)
  {
    var t := CreateUser(s, r, newId, now, digest);
    if t.result.Ok? {
      UserWriteKeepsTables(s, newId, NewUserRow(r, newId, now));
      assert forall g :: g in s.groups ==> newId !in s.groups[g].members;
    }
  }

  /** A committed update of one row's columns keeps the store consistent
      when the row keeps its id and its groups. */
  lemma {:induction false} ColumnUpdateKeepsConsistency(s: Store, id: string, row: UserEntity)
    requires Consistent(s) && id in s.users
    requires UserWriteOk(s, id, row) && row.groups == s.users[id].groups
    ensures Consistent(s.(users := s.users[id := row]))
  {
    UserWriteKeepsTables(s, id, row);
    var s2 := s.(users := s.users[id := row]);
    assert s2.users.Keys == s.users.Keys;
    forall g, u | g in s2.groups && u in s2.users
      ensures u in s2.groups[g].members <==> g in s2.users[u].groups
    {
      assert u in s.groups[g].members <==> g in s.users[u].groups;
    }
  }

  lemma ReplaceUserKeepsConsistency(s: Store, id: string, r: UserResource, ifMatch: Option<string>,
                                    now: Instant, digest: string -> string)
    requires Consistent(s) && r.active.Some?
    ensures Consistent(ReplaceUser(s, id, r, ifMatch, now, digest).store)
  {
    if ReplaceUser(s, id, r, ifMatch, now, digest).result.Ok? {
      ColumnUpdateKeepsConsistency(s, id, FlushUser(s.users[id], UpdateEntityFromScim(s.users[id], r), now));
    }
  }

  lemma PatchUserKeepsConsistency(s: Store, id: string, r: UserResource, ifMatch: Option<string>,
                                  now: Instant, digest: string -> string)
    requires Consistent(s)
    ensures Consistent(PatchUser(s, id, r, ifMatch, now, digest).store)
  {
    if PatchUser(s, id, r, ifMatch, now, digest).result.Ok? {
      ColumnUpdateKeepsConsistency(s, id, FlushUser(s.users[id], ApplyPatch(s.users[id], r), now));
    }
  }

  /** Delete keeps the store consistent: the user's edges go with it. */
  lemma DeleteUserKeepsConsistency(s: Store, id: string)
    requires Consistent(s)
    ensures Consistent(DeleteUser(s, id).store)
  {
    if id in s.users {
      var d := DeleteUser(s, id).store;
      forall k | k in d.users ensures UserRowValid(d.users, k) {
        assert UserRowValid(s.users, k);
      }
      forall k | k in d.groups ensures GroupRowValid(d.groups, k) {
        assert GroupRowValid(s.groups, k);
      }
    }
  }

  // -----------------------------------------------------------------------
  // Search

  /** The repository query a filter selects. */
  datatype UserQuery =
    | AllUsers
    | UserNameContains(needle: string)
    | DisplayNameContains(needle: string)
    | EmailContains(needle: string)
    | ActiveIs(active: bool)
    | FirstNameContains(needle: string)
    | LastNameContains(needle: string)

  /** The switch on the lower-cased attribute; the operator is not consulted. */
  function Dispatch(f: FilterResult): (q: UserQuery)
    ensures LowerAscii(f.attribute) == "username" <==> q == UserNameContains(f.value)
    ensures LowerAscii(f.attribute) == "displayname" <==> q == DisplayNameContains(f.value)
    ensures LowerAscii(f.attribute) in ["emails", "emails.value"] <==> q == EmailContains(f.value)
    ensures LowerAscii(f.attribute) == "active" <==> q == ActiveIs(EqualsIgnoreCase(f.value, "true"))
    ensures LowerAscii(f.attribute) == "name.givenname" <==> q == FirstNameContains(f.value)
    ensures LowerAscii(f.attribute) == "name.familyname" <==> q == LastNameContains(f.value)
  {
    var a := LowerAscii(f.attribute);
    if a == "username" then UserNameContains(f.value)
    else if a == "displayname" then DisplayNameContains(f.value)
    else if a == "emails" || a == "emails.value" then EmailContains(f.value)
    else if a == "active" then ActiveIs(EqualsIgnoreCase(f.value, "true"))
    else if a == "name.givenname" then FirstNameContains(f.value)
    else if a == "name.familyname" then LastNameContains(f.value)
    else AllUsers
  }

  /** The query a search runs: none for an absent or blank filter or one
      that does not parse, else the dispatch of the parsed filter. */
  function QueryFor(filter: Option<string>): (q: UserQuery)
    ensures filter.None? || Trim(filter.value) == "" ==> q == AllUsers
    ensures filter.Some? && NoMatch(Trim(filter.value)) ==> q == AllUsers
    ensures filter.Some? && Trim(filter.value) != "" && !NoMatch(Trim(filter.value)) ==>
              q == Dispatch(ParseFilter(filter.value).value)
  {
    if filter.None? || Trim(filter.value) == "" then AllUsers
    else
      match ParseFilter(filter.value)
      case None => AllUsers
      case Some(f) => Dispatch(f)
  }

  /** The operator plays no part: `eq`, `co` or any other gives the same query. */
  lemma OperatorIgnored(attribute: string, op1: string, op2: string, value: string)
    ensures Dispatch(FilterResult(attribute, op1, value)) == Dispatch(FilterResult(attribute, op2, value))
  {
  }

  /** An attribute outside the six supported names, in any case, leaves the
      search unfiltered. */
  lemma UnsupportedAttributeIsUnfiltered(f: FilterResult)
    requires LowerAscii(f.attribute) !in ["username", "displayname", "emails", "emails.value", "active",
                                          "name.givenname", "name.familyname"]
    ensures Dispatch(f) == AllUsers
  {
  }

  /** Whether the query selects the row. */
  predicate Selects(q: UserQuery, u: UserEntity) {
    match q
    case AllUsers => true
    case UserNameContains(v) => ContainsIgnoreCase(u.userName, v)
    case DisplayNameContains(v) => ContainsIgnoreCase(u.displayName, v)
    case EmailContains(v) => ContainsIgnoreCase(u.email, v)
    case ActiveIs(b) => u.active == b
    case FirstNameContains(v) => ContainsIgnoreCase(u.firstName, v)
    case LastNameContains(v) => ContainsIgnoreCase(u.lastName, v)
  }

  /** The ids of `ids` whose rows the query selects, in the same order. */
  function SelectIds(s: Store, ids: seq<string>, q: UserQuery): (r: seq<string>)
    requires forall k :: 0 <= k < |ids| ==> ids[k] in s.users
    ensures forall x :: x in r <==> x in ids && Selects(q, s.users[x])
    ensures |r| <= |ids|
    ensures (forall i, j :: 0 <= i < j < |ids| ==> ids[i] != ids[j]) ==>
              forall i, j :: 0 <= i < j < |r| ==> r[i] != r[j]
    decreases |ids|
  {
    if |ids| == 0 then []
    else
      var rest := SelectIds(s, ids[1..], q);
      if Selects(q, s.users[ids[0]]) then [ids[0]] + rest else rest
  }

  /** The set of stored users a query selects. */
  function MatchingIds(s: Store, q: UserQuery): set<string> {
    set k | k in s.users && Selects(q, s.users[k])
  }

  /** A sequence without repeats has as many elements as its set. */
  lemma {:induction false} DistinctCount<T>(xs: seq<T>, st: set<T>)
    requires forall i, j :: 0 <= i < j < |xs| ==> xs[i] != xs[j]
    requires forall x :: x in xs <==> x in st
    ensures |xs| == |st|
    decreases |xs|
  {
    if |xs| > 0 {
      var rest := st - {xs[0]};
      assert forall x :: x in xs[1..] <==> x in rest by {
        forall x ensures x in xs[1..] <==> x in rest {
          if x in xs[1..] {
            var k :| 0 <= k < |xs[1..]| && xs[1..][k] == x;
            assert xs[k + 1] == x;
          }
        }
      }
      DistinctCount(xs[1..], rest);
    } else {
      assert forall x :: x !in st;
      assert st == {};
    }
  }

  /** The table-order listing of the ids a query selects. */
  ghost function Matches(s: Store, q: UserQuery): (ids: seq<string>)
    ensures forall x :: x in ids <==> x in MatchingIds(s, q)
    ensures |ids| == |MatchingIds(s, q)|
    ensures forall k :: 0 <= k < |ids| ==> ids[k] in s.users
  {
    var all := SetToSeq(s.users.Keys);
    var ids := SelectIds(s, all, q);
    DistinctCount(ids, MatchingIds(s, q));
    ids
  }

  /** The zero-based page number the user search asks for. */
  function PageNumber(startIndex: Option<int>): (p: nat)
    ensures startIndex.Some? && startIndex.value > 0 ==> p == startIndex.value - 1
    ensures !(startIndex.Some? && startIndex.value > 0) ==> p == 0
  {
    if startIndex.Some? && startIndex.value > 0 then startIndex.value - 1 else 0
  }

  function PageSize(count: Option<int>): (n: nat)
    ensures n > 0
    ensures count.Some? && count.value > 0 ==> n == count.value
    ensures !(count.Some? && count.value > 0) ==> n == DEFAULT_PAGE_SIZE
  {
    if count.Some? && count.value > 0 then count.value else DEFAULT_PAGE_SIZE
  }

  /** The mapping of each listed row, in order. */
  function MapUsers(s: Store, ids: seq<string>, digest: string -> string): (rs: seq<UserResource>)
    requires forall k :: 0 <= k < |ids| ==> ids[k] in s.users
    ensures |rs| == |ids|
    ensures forall k :: 0 <= k < |ids| ==> rs[k] == MapToScimUser(s.users[ids[k]], digest)
  {
    seq(|ids|, k requires 0 <= k < |ids| => MapToScimUser(s.users[ids[k]], digest))
  }

  /** The ids on the requested page of the matches. */
  ghost function PageIds(s: Store, q: UserQuery, startIndex: Option<int>, count: Option<int>): (ids: seq<string>)
    ensures |ids| <= PageSize(count)
    ensures forall k :: 0 <= k < |ids| ==> ids[k] in s.users && ids[k] in MatchingIds(s, q)
  {
    var m := Matches(s, q);
    PageOf(m, PageNumber(startIndex), PageSize(count))
  }

  /** The envelope for a search that runs repository query `q`. An offset
      beyond Integer.MAX_VALUE makes the repository throw; `fault` stands
      for any other exception the repository or the mapping raises inside
      the try block; the catch answers an empty envelope. */
  ghost function QueryUsers(s: Store, startIndex: Option<int>, count: Option<int>, q: UserQuery,
                            fault: bool, digest: string -> string): (resp: ListResponse<UserResource>)
    ensures resp.startIndex == startIndex.GetOr(1)
    ensures fault || !OffsetFits(PageNumber(startIndex), PageSize(count)) ==>
              resp.resources == [] && resp.totalResults == 0 && resp.itemsPerPage == count.GetOr(DEFAULT_PAGE_SIZE)
    ensures !fault && OffsetFits(PageNumber(startIndex), PageSize(count)) ==>
              resp.totalResults == ToInt32(|MatchingIds(s, q)|)
    ensures !fault && OffsetFits(PageNumber(startIndex), PageSize(count)) ==>
              resp.itemsPerPage == |resp.resources| <= PageSize(count)
  {
    if fault || !OffsetFits(PageNumber(startIndex), PageSize(count)) then
      ListResponse([], 0, startIndex.GetOr(1), count.GetOr(DEFAULT_PAGE_SIZE))
    else
      var ids := PageIds(s, q, startIndex, count);
      var resources := MapUsers(s, ids, digest);
      ListResponse(resources, ToInt32(|Matches(s, q)|), startIndex.GetOr(1), |resources|)
  }

  /** `search(startIndex, count, filter)`: the filter picks the query, and
      the answer is the requested page of that query's matches. */
  ghost function SearchUsers(s: Store, startIndex: Option<int>, count: Option<int>, filter: Option<string>,
                             fault: bool, digest: string -> string): (resp: ListResponse<UserResource>)
    ensures resp.startIndex == startIndex.GetOr(1)
    ensures fault || !OffsetFits(PageNumber(startIndex), PageSize(count)) ==>
              resp.resources == [] && resp.totalResults == 0 && resp.itemsPerPage == count.GetOr(DEFAULT_PAGE_SIZE)
    ensures !fault && OffsetFits(PageNumber(startIndex), PageSize(count)) ==>
              var m := Matches(s, QueryFor(filter));
              var page := PageOf(m, PageNumber(startIndex), PageSize(count));
              && resp.totalResults == ToInt32(|m|)
              && (forall k :: 0 <= k < |page| ==> page[k] in s.users)
              && resp.resources == MapUsers(s, page, digest)
              && resp.itemsPerPage == |page|
  {
    QueryUsers(s, startIndex, count, QueryFor(filter), fault, digest)
  }

  /** Paging walks the matches: without a fault and with an offset that
      fits an int, startIndex p + 1 and count n list the mapped rows of page p of size n of the matches
      (`Paging.PageEntry` and `Paging.PagesTile` say which rows those are). */
  lemma QueryListsPage(s: Store, q: UserQuery, n: nat, p: nat, digest: string -> string)
    requires n > 0 && p * n <= INT_MAX
    ensures var page := PageOf(Matches(s, q), p, n);
            (forall k :: 0 <= k < |page| ==> page[k] in s.users) &&
            QueryUsers(s, Some(p + 1), Some(n), q, false, digest).resources == MapUsers(s, page, digest)
  {
    assert PageNumber(Some(p + 1)) == p;
    assert PageSize(Some(n)) == n;
  }

  /** startIndex is a page number, not the 1-based item index of RFC 7644
      section 3.4.2.4: over 25 users, startIndex 21 with count 10 asks for
      page 20 and answers nothing, where the standard gives users 21 to 25. */
  lemma StartIndexIsPageNumber(s: Store, digest: string -> string)
    requires |s.users| == 25
    ensures var resp := SearchUsers(s, Some(21), Some(10), None, false, digest);
            resp.resources == [] && resp.totalResults == 25 && resp.itemsPerPage == 0
  {
    AllUsersMatchAll(s);
    QueryListsPage(s, AllUsers, 10, 20, digest);
  }

  /** itemsPerPage counts what was returned: two users under count 10 give
      itemsPerPage 2, not 10. */
  lemma ItemsPerPageCountsResources(s: Store, digest: string -> string)
    requires |s.users| == 2
    ensures var resp := SearchUsers(s, Some(1), Some(10), None, false, digest);
            |resp.resources| == 2 && resp.totalResults == 2 && resp.itemsPerPage == 2 && resp.startIndex == 1
  {
    AllUsersMatchAll(s);
    QueryListsPage(s, AllUsers, 10, 0, digest);
  }

  /** An offset past Integer.MAX_VALUE is swallowed by the catch: startIndex
      30,000,001 with count 100 answers no users and totalResults 0, however
      many users match. */
  lemma OffsetOverflowAnswersEmpty(s: Store, digest: string -> string)
    ensures var resp := SearchUsers(s, Some(30_000_001), Some(100), None, false, digest);
            resp.resources == [] && resp.totalResults == 0 && resp.itemsPerPage == 100
  {
    assert PageNumber(Some(30_000_001)) * PageSize(Some(100)) == 3_000_000_000;
  }

  lemma AllUsersMatchAll(s: Store)
    ensures MatchingIds(s, AllUsers) == s.users.Keys
    ensures |MatchingIds(s, AllUsers)| == |s.users|
  {
    assert MatchingIds(s, AllUsers) == s.users.Keys;
  }
}
