# SCIM 2.0 identity resource engine in Dafny

A model of the core of a SCIM 2.0 provisioning server: the User and Group
resource services, the two persistent entities and the many-to-many
membership relation between them, the stand-alone resource mappers, the
service's meta object, the exception classification, and the scope checks
that guard the endpoints. Resource shapes follow RFC 7643 and the protocol
follows RFC 7644, except where noted below.

Everything is pure. The database is a `Store`: two maps from externalId to
row, one per table, with each membership edge recorded on both sides. A
writing operation maps a store to a `Txn`, which holds the store after
commit or rollback and the returned value or the error thrown. The methods
are `@Transactional`, and Spring rolls back only on a runtime exception:
a violated constraint, a refused If-Match or an unknown id leaves the store
exactly as it was, but the checked `ResourceNotFoundException` that a group
member list can end with commits whatever the method wrote before it (the
row, the rename, the cleared edges, the edges to the members already
resolved).
Calls to code outside the core are parameters:

- `now` is the instant `Instant.now()` reports when a lifecycle hook runs.
- `newId` is the UUID a create draws.
- `digest` is SHA-1 followed by lower-case hex, left uninterpreted.
- The order of a `HashSet` or an unsorted table scan is the ghost `Enumeration.SetToSeq`.

The store invariant `Stores.Consistent` has four parts:

- every row sits under its own externalId;
- the declared table constraints hold (NOT NULL, UNIQUE);
- `u ∈ g.members ⇔ g ∈ u.groups`;
- every group member is a stored user.

## Layout

| file | module | what it holds |
|---|---|---|
| wrappers.dfy | Wrappers | Option, Result and Outcome |
| java_text.dfy | JavaText | Java string rendering, `trim`, ASCII case folding, `contains`, 32-bit casts, `hashCode` |
| instants.dfy | Instants | `Instant` at nanosecond resolution and its epoch-millisecond conversions |
| enumeration.dfy | Enumeration | the fixed listing order of a set |
| scim_types.dfy | ScimTypes | the SDK's resource types and the list envelope |
| scim_meta.dfy | ScimMetaModel | ScimMeta, its two conversions and its Builder |
| scim_errors.dfy | ScimErrors | protocol errors, service errors, ScimException |
| entities.dfy | Entities | UserEntity, GroupEntity, the paired helpers, equality, lifecycle hooks, flush |
| stores.dfy | Stores | the store, its invariants, edge operations on whole tables |
| version_tag.dfy | VersionTags | the weak entity tag and the If-Match check |
| filter.dfy | FilterParser | the leftmost-match scanner for the filter regex |
| paging.dfy | Paging | offset paging as PageRequest does it |
| user_service.dfy | UserService | ScimUserService |
| group_service.dfy | GroupService | ScimGroupService |
| user_mapper.dfy | UserMapper | ScimUserMapper |
| group_mapper.dfy | GroupMapper | ScimGroupMapper |
| authorization.dfy | Authorization | ScimAuthorizationService and ScimScopes |

## Where the model follows the code rather than the design

RFC 7643 and RFC 7644 ask for several things the code does not do. The
model follows the code in each case, and a lemma pins the difference down:

- **Natural-key clashes.** A duplicate userName is a 400 `invalidSyntax`, not a 409 Conflict (`ScimErrors.StandardDeviations`). Group create makes no uniqueness check of its own. A duplicate displayName is only refused by the table's UNIQUE constraint, which the model reports as `IntegrityViolation("groups")` (`GroupService.CreateGroup`).
- **A group member that does not resolve.** RFC 7644 section 3.3 expects a failed create to create nothing. Here the exception is checked, so the transaction commits: the new group stays, with the members resolved before the failing one (`GroupService.CreateGroupFailureKeepsConsistency`). A failed replace or patch likewise commits its rename and a truncated membership (`GroupService.ReplaceWritesFailureRelinks`).
- **Group delete.** It deletes from the inverse side of the many-to-many mapping (GroupEntity's `members` is `mappedBy = "groups"`), and nothing detaches the members first. So the `user_groups` rows that name the group are not removed. With the foreign key Hibernate generates for that table, deleting a group that has members fails at commit and rolls back. Without that key, the join rows stay behind: in the model, the former members keep the deleted id in their group sets (`GroupService.DeleteGroupLeavesDanglingIds`). But a later read of such a user never lists the deleted group, because the join only loads group rows that exist (`UserMapper.DeletedGroupNotListed`).
- **User search `startIndex`.** It is a one-based page number, not an item index. Over 25 users, startIndex 21 with count 10 returns nothing (`UserService.StartIndexIsPageNumber`).
- **Group search `itemsPerPage`.** It echoes the requested count (`GroupService.SearchGroupsEdgeCases`). The user search reports the number returned (`UserService.ItemsPerPageCountsResources`). A test in the repository expects the requested count for users as well; the model follows the code.
- **The version token's lastModified term.** It is always empty, because the token is computed before the meta is attached. So timestamps never move a token (`UserService.VersionIgnoresOtherFields`, `GroupService.VersionIgnoresTimestamps`). Its fields are concatenated without a separator, so distinct resources can share a token (`UserService.TokenInputAmbiguous`, `GroupService.TokenInputRunsFieldsTogether`).
- **Paging past Integer.MAX_VALUE.** Spring Data JPA refuses an offset page·size beyond Integer.MAX_VALUE. The user search catches that and answers an empty envelope (`UserService.OffsetOverflowAnswersEmpty`); the group search does not catch it, so the request fails (`GroupService.SearchGroupsEdgeCases`).
- **The filter operator.** It is ignored: `eq` is containment like `co` (`UserService.OperatorIgnored`). The exception is `active`, which compares with `equalsIgnoreCase("true")`.

The repository's UserEntity declares no first or last name, yet the user
service reads and writes both. The model gives the user row two optional
name columns. The repository declares no `…ContainingIgnoreCase` queries,
yet the service calls them. The model treats each as an ASCII
case-insensitive substring test on its column that a null column never
passes.

## Model

| member | source | states |
|---|---|---|
| Entities.AddMember | database/src/main/java/com/valura/auth/database/entity/GroupEntity.java:89-92 | after `addMember` the user is among the group's members and the group among the user's groups; every other edge and every other field of both entities is as before |
| Entities.RemoveMember | database/src/main/java/com/valura/auth/database/entity/GroupEntity.java:94-97 | after `removeMember` neither side records the edge; every other edge and field is as before |
| Entities.AddGroup | database/src/main/java/com/valura/auth/database/entity/UserEntity.java:128-131 | after `addGroup` the group is among the user's groups and the user among the group's members; every other edge and every other field of both entities is as before |
| Entities.RemoveGroup | database/src/main/java/com/valura/auth/database/entity/UserEntity.java:133-136 | after `removeGroup` neither side records the edge; every other edge and field is as before |
| Entities.HelpersLink | database/src/main/java/com/valura/auth/database/entity/GroupEntity.java:89-97 | whatever state the pair is in, both helpers leave the two sides agreeing on the edge |
| Entities.UserSideMatchesGroupSide | database/src/main/java/com/valura/auth/database/entity/UserEntity.java:128-136 | `u.addGroup(g)` and `u.removeGroup(g)` do exactly what `g.addMember(u)` and `g.removeMember(u)` do |
| Entities.AddMemberIdempotent | database/src/main/java/com/valura/auth/database/entity/GroupEntity.java:89-92 | adding an edge a second time changes nothing (set semantics) |
| Entities.RemoveNonMemberIsNoOp | database/src/main/java/com/valura/auth/database/entity/GroupEntity.java:94-97 | removing an edge that does not exist changes neither entity |
| Entities.RemoveUndoesAdd | database/src/main/java/com/valura/auth/database/entity/GroupEntity.java:89-97 | removing a freshly added edge restores both entities |
| Entities.SetMembers | database/src/main/java/com/valura/auth/database/entity/GroupEntity.java:84-86 | `setMembers(null)` gives the empty set, any other set is taken as is, and nothing else changes |
| Entities.SetGroups | database/src/main/java/com/valura/auth/database/entity/UserEntity.java:123-125 | `setGroups(null)` gives the empty set, any other set is taken as is, and nothing else changes |
| Entities.IdentityIsExternalId | database/src/main/java/com/valura/auth/database/entity/UserEntity.java:138-149 | equality of users, and of groups, holds exactly when the externalIds are equal, and equal entities hash alike |
| Entities.UserOnCreate | database/src/main/java/com/valura/auth/database/entity/UserEntity.java:50-54 | the persist hook sets createdAt and updatedAt to the same instant and touches nothing else |
| Entities.UserOnUpdate | database/src/main/java/com/valura/auth/database/entity/UserEntity.java:56-59 | the update hook moves updatedAt only |
| Entities.GroupOnCreate | database/src/main/java/com/valura/auth/database/entity/GroupEntity.java:35-39 | the persist hook sets createdAt and updatedAt to the same instant and touches nothing else |
| Entities.GroupOnUpdate | database/src/main/java/com/valura/auth/database/entity/GroupEntity.java:41-44 | the update hook moves updatedAt only |
| Entities.FlushUser | database/src/main/java/com/valura/auth/database/entity/UserEntity.java:44-59 | at commit createdAt keeps its loaded value (not updatable), and updatedAt becomes now exactly when a column changed; the row is otherwise the in-memory entity |
| Entities.FlushGroup | database/src/main/java/com/valura/auth/database/entity/GroupEntity.java:29-44 | at commit createdAt keeps its loaded value, and updatedAt becomes now exactly when externalId or displayName changed; a membership change alone does not stamp the row |
| Stores.UserWriteKeepsTables | database/src/main/java/com/valura/auth/database/entity/UserEntity.java:10-31 | a users row that passes NOT NULL and UNIQUE against the others leaves every row of the table valid |
| Stores.GroupWriteKeepsTables | database/src/main/java/com/valura/auth/database/entity/GroupEntity.java:10-30 | a groups row that passes NOT NULL and UNIQUE against the others leaves every row of the table valid |
| Stores.Attach | database/src/main/java/com/valura/auth/database/entity/GroupEntity.java:89-92 | `addMember` on two stored rows adds the edge on both sides and changes no key |
| Stores.Detach | database/src/main/java/com/valura/auth/database/entity/GroupEntity.java:94-97 | `removeMember` on two stored rows removes the edge on both sides and changes no key |
| Stores.EdgesKeepRows | database/src/main/java/com/valura/auth/database/entity/GroupEntity.java:26-27 | adding or removing edges changes no key and no column of any row |
| Stores.AttachKeepsConsistency | database/src/main/java/com/valura/auth/database/entity/GroupEntity.java:89-92 | attaching stored users to a group keeps keys, table constraints, two-sided membership and member resolution |
| Stores.DetachKeepsConsistency | database/src/main/java/com/valura/auth/database/entity/GroupEntity.java:94-97 | detaching users from a group keeps the same four invariants |
| Stores.AttachCompose | database/src/main/java/com/valura/auth/database/entity/GroupEntity.java:89-92 | attaching one user and then a set is attaching their union at once |
| Stores.DetachCompose | database/src/main/java/com/valura/auth/database/entity/GroupEntity.java:94-97 | detaching one user and then a set is detaching their union at once |
| Stores.AttachNothing | database/src/main/java/com/valura/auth/database/entity/GroupEntity.java:89-92 | attaching no user leaves the store unchanged |
| Stores.DetachNothing | database/src/main/java/com/valura/auth/database/entity/GroupEntity.java:94-97 | detaching no user leaves the store unchanged |
| Stores.ApplyOps | database/src/main/java/com/valura/auth/database/entity/GroupEntity.java:89-97 | any sequence of helper calls keeps the keys and the row sets |
| Stores.HelpersPreserveSymmetry | database/src/main/java/com/valura/auth/database/entity/GroupEntity.java:89-97 | any sequence of `addMember` and `removeMember` calls on a symmetric store leaves `u ∈ g.members ⇔ g ∈ u.groups` true |
| Stores.RemoveUserRow | database/src/main/java/com/valura/auth/database/entity/UserEntity.java:36-42 | deleting a user removes its row and, since the user side owns `user_groups`, the user from every group's members; no other row changes |
| Stores.RemoveGroupRow | database/src/main/java/com/valura/auth/database/entity/GroupEntity.java:26-27 | deleting a group row (the inverse side) removes that row and nothing else |
| Stores.UserRows | database/src/main/java/com/valura/auth/database/entity/UserEntity.java:9-16 | a scan of the users table lists exactly the stored rows, once each |
| Stores.GroupRows | database/src/main/java/com/valura/auth/database/entity/GroupEntity.java:9-15 | a scan of the groups table lists exactly the stored rows, once each |
| Instants.ToEpochMilli | scim/src/main/java/com/valura/auth/scim/model/ScimMeta.java:37 | `toEpochMilli` rounds towards negative infinity |
| Instants.OfEpochMilli | scim/src/main/java/com/valura/auth/scim/model/ScimMeta.java:24 | a Calendar's instant has exactly the Calendar's milliseconds |
| Instants.MillisRoundTrip | scim/src/main/java/com/valura/auth/scim/model/ScimMeta.java:24-37 | going through a Calendar gives back the instant exactly when it has no sub-millisecond part |
| ScimMetaModel.CalendarToInstant | scim/src/main/java/com/valura/auth/scim/model/ScimMeta.java:24-25 | a null Calendar gives null, any other gives an instant at its milliseconds |
| ScimMetaModel.InstantToCalendar | scim/src/main/java/com/valura/auth/scim/mapper/ScimGroupMapper.java:49-56 | a null instant gives null, any other gives a Calendar at its epoch milliseconds |
| ScimMetaModel.FromMeta | scim/src/main/java/com/valura/auth/scim/model/ScimMeta.java:21-28 | a null Meta leaves every field null; otherwise resourceType, version and location are copied and each timestamp is present exactly when the Calendar is, at the same milliseconds |
| ScimMetaModel.ToUnboundIdMeta | scim/src/main/java/com/valura/auth/scim/model/ScimMeta.java:31-53 | resourceType, version and location are copied; each Calendar is present exactly when the instant is, at its epoch milliseconds |
| ScimMetaModel.ScimMetaRoundTrip | scim/src/main/java/com/valura/auth/scim/model/ScimMeta.java:21-53 | converting to the SDK's Meta and back gives the same ScimMeta exactly when both timestamps are whole milliseconds |
| ScimMetaModel.MetaRoundTrip | scim/src/main/java/com/valura/auth/scim/model/ScimMeta.java:21-53 | converting an SDK Meta to ScimMeta and back loses nothing |
| ScimMetaModel.BuilderYieldsSuppliedFields | scim/src/main/java/com/valura/auth/scim/model/ScimMeta.java:97-137 | a builder chain, in either setter order, builds exactly the five supplied fields, and an empty chain builds all nulls |
| ScimErrors.Explicit | scim/src/main/java/com/valura/auth/scim/exception/ScimException.java:11-15 | the explicit constructor stores message, status and scimType verbatim, for any status code including ones the conversion never produces |
| ScimErrors.Classify | scim/src/main/java/com/valura/auth/scim/exception/ScimException.java:17-29 | the message is kept; not-found maps to 404 `invalidResource`, bad request to 400 `invalidSyntax`, and precondition-failed or any other SDK error to 500 `serverError`, each if and only if |
| ScimErrors.ClassificationIsThreeWay | scim/src/main/java/com/valura/auth/scim/exception/ScimException.java:17-29 | every conversion yields one of the three (status, scimType) pairs |
| ScimErrors.ExplicitCoversClassify | scim/src/main/java/com/valura/auth/scim/exception/ScimException.java:11-29 | every conversion is the explicit constructor at the message and its pair, and an explicit exception with status 409 is never a conversion |
| ScimErrors.StandardDeviations | scim/src/main/java/com/valura/auth/scim/exception/ScimException.java:22-28 | the username clash becomes 400 `invalidSyntax` and an If-Match mismatch 500 `serverError` |
| VersionTags.WeakTag | scim/src/main/java/com/valura/auth/scim/service/ScimUserService.java:312 | the tag is `W/"`, the hex, then `"`, so the hex can be read back out of it |
| VersionTags.WeakTagInjective | scim/src/main/java/com/valura/auth/scim/service/ScimUserService.java:312 | two tags are equal exactly when their digests are |
| VersionTags.LastModifiedTerm | scim/src/main/java/com/valura/auth/scim/service/ScimUserService.java:309-310 | the term is empty exactly when there is no meta or no lastModified, else it is the milliseconds as `Long.toString` writes them |
| VersionTags.ValidateETag | scim/src/main/java/com/valura/auth/scim/service/ScimUserService.java:318-324 | the check passes exactly when If-Match is absent, empty or equal to the current token, and otherwise fails with "ETag mismatch" |
| VersionTags.ValidationAcceptsOnlyCurrent | scim/src/main/java/com/valura/auth/scim/service/ScimGroupService.java:218-224 | the current token, no token and the empty token pass; any other token fails |
| FilterParser.RunEndAllIn | scim/src/main/java/com/valura/auth/scim/service/ScimUserService.java:203 | a greedy `\w+` or `\s+` run covers only chars of its class |
| FilterParser.RunEndUnique | scim/src/main/java/com/valura/auth/scim/service/ScimUserService.java:203 | a greedy run can stop only at the first char outside its class |
| FilterParser.AttributeEnd | scim/src/main/java/com/valura/auth/scim/service/ScimUserService.java:203 | the attribute group is non-empty and stops at the end or before a non-word char |
| FilterParser.AttributeEndShape | scim/src/main/java/com/valura/auth/scim/service/ScimUserService.java:203 | the attribute group matches `\w+(?:\.\w+)?` |
| FilterParser.AttributeEndUnique | scim/src/main/java/com/valura/auth/scim/service/ScimUserService.java:203 | an attribute group followed by whitespace can end only where the greedy scan ends it |
| FilterParser.OperatorsListed | scim/src/main/java/com/valura/auth/scim/service/ScimUserService.java:203 | the operator test is membership of the lower-cased two chars in the list of nine operators |
| FilterParser.ValueAt | scim/src/main/java/com/valura/auth/scim/service/ScimUserService.java:203 | the value part found after the operator lies after at least one whitespace char and ends at a quote or at the end (`FilterParser.ValueAtGreedy` says which one is found) |
| FilterParser.ValueAtShape | scim/src/main/java/com/valura/auth/scim/service/ScimUserService.java:203 | the value part found matches `\s+["']?([^"']+)` |
| FilterParser.ValueComplete | scim/src/main/java/com/valura/auth/scim/service/ScimUserService.java:203 | wherever the value part can match, the engine finds one |
| FilterParser.ValueAtGreedy | scim/src/main/java/com/valura/auth/scim/service/ScimUserService.java:203 | whenever the value part can match after the operator, the one found is the one backtracking tries first: the longest whitespace run, then the latest value start, then the longest value |
| FilterParser.MatchAt | scim/src/main/java/com/valura/auth/scim/service/ScimUserService.java:203 | a match found at a position starts there, its groups follow one another within the text, and the value ends at a quote or at the end (`FilterParser.MatchAtGreedy` says which one is found) |
| FilterParser.MatchAtSound | scim/src/main/java/com/valura/auth/scim/service/ScimUserService.java:203 | what the scanner finds at a position is a match of the pattern there |
| FilterParser.MatchComplete | scim/src/main/java/com/valura/auth/scim/service/ScimUserService.java:203 | wherever the pattern matches at a position, the scanner finds a match at that position |
| FilterParser.MatchAtGreedy | scim/src/main/java/com/valura/auth/scim/service/ScimUserService.java:203 | wherever the pattern matches, the match found at that start agrees on attribute and operator and is preferred by backtracking to it |
| FilterParser.EngineMatchUnique | scim/src/main/java/com/valura/auth/scim/service/ScimUserService.java:203-206 | at most one match is both leftmost and preferred at its start |
| FilterParser.ScanIsEngineMatch | scim/src/main/java/com/valura/auth/scim/service/ScimUserService.java:204-206 | the scan from the start finds the leftmost match that backtracking prefers |
| FilterParser.FirstHit | scim/src/main/java/com/valura/auth/scim/service/ScimUserService.java:206 | the first present entry from a position on: every entry skipped is absent, and none is returned only when all are absent |
| FilterParser.Scan | scim/src/main/java/com/valura/auth/scim/service/ScimUserService.java:204-206 | `find()` returns the scanner's match at its own start, at or after the position |
| FilterParser.ScanSkips | scim/src/main/java/com/valura/auth/scim/service/ScimUserService.java:206 | no position before the returned start matches, and a failed scan means no position from the start on matches |
| FilterParser.ScanIsLeftmost | scim/src/main/java/com/valura/auth/scim/service/ScimUserService.java:206 | the match found starts no later than any match of the pattern |
| FilterParser.ScanFailsOnlyWithoutMatch | scim/src/main/java/com/valura/auth/scim/service/ScimUserService.java:206 | a failed scan means the pattern matches nowhere |
| FilterParser.ParseFilter | scim/src/main/java/com/valura/auth/scim/service/ScimUserService.java:200-220 | the result is null exactly when the pattern matches nowhere in the trimmed filter |
| FilterParser.ParsedIsLeftmostMatch | scim/src/main/java/com/valura/auth/scim/service/ScimUserService.java:202-213 | a parsed filter is the three groups of the leftmost match in the trimmed filter, and among the matches at that start, of the one backtracking picks: any match the engine would choose gives the same three groups |
| FilterParser.ParsedShapes | scim/src/main/java/com/valura/auth/scim/service/ScimUserService.java:203-209 | the attribute is a word or two words joined by one dot, the operator is one of the nine in any ASCII case, and the value is non-empty and quote-free |
| FilterParser.ParsesQuotedEquality | scim/src/main/java/com/valura/auth/scim/service/ScimUserService.java:203-213 | `userName eq "bob"` parses to (userName, eq, bob) with the quotes stripped |
| JavaText.Trim | scim/src/main/java/com/valura/auth/scim/service/ScimUserService.java:202 | `trim()` yields a middle slice of the input, strips only chars at or below U+0020 from either end, and leaves none at its ends |
| JavaText.ToInt32 | scim/src/main/java/com/valura/auth/scim/service/ScimGroupService.java:148 | the `(int)` cast lands in 32-bit range, differs from its input by a multiple of 2^32, and is the identity on values already in range |
| Paging.PageOf | scim/src/main/java/com/valura/auth/scim/service/ScimUserService.java:129 | page p of size n holds the items from position p·n on, in order, at most n of them, and is empty past the end |
| Paging.PagesTile | scim/src/main/java/com/valura/auth/scim/service/ScimUserService.java:126-129 | item k of the listing is entry k mod n of page k div n, so every item is on a page |
| Paging.PageEntry | scim/src/main/java/com/valura/auth/scim/service/ScimUserService.java:129 | entry j of page p is item p·n + j |
| Paging.FullPagesBeforeTheLast | scim/src/main/java/com/valura/auth/scim/service/ScimUserService.java:129 | every page before the last is full and every page past the end is empty |
| UserService.NameOf | scim/src/main/java/com/valura/auth/scim/service/ScimUserService.java:252-264 | the name is present exactly when a first or last name is, and formatted is "first last" or whichever one exists |
| UserService.EmailsOf | scim/src/main/java/com/valura/auth/scim/service/ScimUserService.java:267-275 | there is exactly one primary "work" email when the row has an email, and no emails attribute otherwise |
| UserService.MapToScimUser | scim/src/main/java/com/valura/auth/scim/service/ScimUserService.java:244-302 | id, userName, displayName, active, name and emails come from the row; resourceType is "User" and the location is "/scim/v2/Users/" plus the id; the version digests id, userName, displayName and active with no timestamp |
| UserService.UpdateEntityFromScim | scim/src/main/java/com/valura/auth/scim/service/ScimUserService.java:222-242 | userName, displayName and active are overwritten, nulls included; email, given name and family name are written only when supplied; externalId, groups and timestamps stay |
| UserService.ApplyPatch | scim/src/main/java/com/valura/auth/scim/service/ScimUserService.java:91-111 | each of userName, displayName, active, first email, given name and family name is written exactly when supplied; nothing else changes |
| UserService.MappingRoundTrip | scim/src/main/java/com/valura/auth/scim/service/ScimUserService.java:222-302 | writing a user's own mapping back changes nothing, by replace or by patch |
| UserService.ReplaceVersusPatch | scim/src/main/java/com/valura/auth/scim/service/ScimUserService.java:91-111 | replace clears an absent userName or displayName where patch keeps it; with both present they write the same row |
| UserService.VersionIgnoresOtherFields | scim/src/main/java/com/valura/auth/scim/service/ScimUserService.java:304-312 | two rows equal on externalId, userName, displayName and active carry the same token, whatever their email, names, groups or timestamps |
| UserService.TokenInputSeparatesAlignedFields | scim/src/main/java/com/valura/auth/scim/service/ScimUserService.java:307-310 | when the rendered fields have equal lengths, two token inputs are equal exactly when the four rendered fields are |
| UserService.TokenInputAmbiguous | scim/src/main/java/com/valura/auth/scim/service/ScimUserService.java:307-308 | userName "a" with displayName "bc" digests the same string as "ab" with "c" |
| UserService.NewUserRow | scim/src/main/java/com/valura/auth/scim/service/ScimUserService.java:51-54 | the created row has the drawn id, no groups, the resource's fields and createdAt = updatedAt = now |
| UserService.CreateUser | scim/src/main/java/com/valura/auth/scim/service/ScimUserService.java:45-56 | a taken userName fails with a uniqueness error before any write; otherwise the row is inserted exactly when the table constraints accept it, and the answer is its mapping |
| UserService.GetUser | scim/src/main/java/com/valura/auth/scim/service/ScimUserService.java:58-62 | it succeeds exactly for a stored id, with that row's mapping, and otherwise fails with not-found "User not found" |
| UserService.CommitUser | scim/src/main/java/com/valura/auth/scim/service/ScimUserService.java:75-76 | the flushed row is written exactly when the constraints accept it, and the answer is the pre-flush mapping |
| UserService.ReplaceUser | scim/src/main/java/com/valura/auth/scim/service/ScimUserService.java:64-77 | an unknown id is not-found and a token mismatch is "ETag mismatch", both with the store unchanged; past those it succeeds exactly when the flushed full overwrite passes the table constraints, writing that row, and otherwise fails with the users constraint error and nothing written |
| UserService.PatchUser | scim/src/main/java/com/valura/auth/scim/service/ScimUserService.java:79-115 | the same errors as replace; past them it succeeds exactly when the flushed partial update passes the table constraints, writing that row, and otherwise fails with the users constraint error and nothing written |
| UserService.DeleteUser | scim/src/main/java/com/valura/auth/scim/service/ScimUserService.java:117-122 | an unknown id is not-found with the store unchanged; otherwise the user's row goes, every group keeps its key and its columns, and each loses exactly that user from its members |
| UserService.CreateThenGet | scim/src/main/java/com/valura/auth/scim/service/ScimUserService.java:45-62 | what create answers is what a later get of the new id answers |
| UserService.ReplaceWithCurrentIsNoOp | scim/src/main/java/com/valura/auth/scim/service/ScimUserService.java:64-77 | replacing a user with its own mapping under its own token writes nothing and answers the same resource |
| UserService.CreateUserKeepsConsistency | scim/src/main/java/com/valura/auth/scim/service/ScimUserService.java:45-56 | create keeps the store consistent |
| UserService.ColumnUpdateKeepsConsistency | scim/src/main/java/com/valura/auth/scim/service/ScimUserService.java:74-75 | a column update the constraints accept, keeping id and groups, keeps the store consistent |
| UserService.ReplaceUserKeepsConsistency | scim/src/main/java/com/valura/auth/scim/service/ScimUserService.java:64-77 | replace keeps the store consistent |
| UserService.PatchUserKeepsConsistency | scim/src/main/java/com/valura/auth/scim/service/ScimUserService.java:79-115 | patch keeps the store consistent |
| UserService.DeleteUserKeepsConsistency | scim/src/main/java/com/valura/auth/scim/service/ScimUserService.java:117-122 | delete keeps the store consistent |
| UserService.Dispatch | scim/src/main/java/com/valura/auth/scim/service/ScimUserService.java:138-167 | each of the six lower-cased attribute names selects its query, if and only if; `active` compares with equalsIgnoreCase "true" |
| UserService.QueryFor | scim/src/main/java/com/valura/auth/scim/service/ScimUserService.java:132-174 | an absent, blank or unparsable filter runs the unfiltered query, and otherwise the parsed filter is dispatched |
| UserService.OperatorIgnored | scim/src/main/java/com/valura/auth/scim/service/ScimUserService.java:138-167 | any two operators give the same query |
| UserService.UnsupportedAttributeIsUnfiltered | scim/src/main/java/com/valura/auth/scim/service/ScimUserService.java:164-166 | an attribute outside the supported six, in any case, leaves the search unfiltered |
| UserService.SelectIds | scim/src/main/java/com/valura/auth/scim/service/ScimUserService.java:140-173 | the query's result keeps exactly the ids whose rows it selects, in order and without repeats |
| UserService.Matches | scim/src/main/java/com/valura/auth/scim/service/ScimUserService.java:140-173 | the matches list every stored user the query selects, once each |
| UserService.PageNumber | scim/src/main/java/com/valura/auth/scim/service/ScimUserService.java:126 | the page is startIndex − 1 for a positive startIndex and 0 otherwise |
| UserService.PageSize | scim/src/main/java/com/valura/auth/scim/service/ScimUserService.java:127 | the size is count for a positive count and 100 otherwise |
| UserService.MapUsers | scim/src/main/java/com/valura/auth/scim/service/ScimUserService.java:176-178 | the resources are the mappings of the listed rows, in order |
| UserService.PageIds | scim/src/main/java/com/valura/auth/scim/service/ScimUserService.java:129-173 | the page holds at most the page size of matching stored users |
| UserService.SearchUsers | scim/src/main/java/com/valura/auth/scim/service/ScimUserService.java:124-198 | the filter picks the repository query through `QueryFor`; startIndex is echoed; without a fault and with an offset that fits an int, totalResults counts that query's matches and the resources are the mapped rows of the requested page of them, itemsPerPage their number; otherwise the empty envelope |
| UserService.QueryUsers | scim/src/main/java/com/valura/auth/scim/service/ScimUserService.java:124-198 | startIndex is echoed (default 1); totalResults is the match count and itemsPerPage the number returned; a fault, or an offset (page·size) beyond Integer.MAX_VALUE, gives an empty envelope with itemsPerPage the count (default 100) |
| UserService.QueryListsPage | scim/src/main/java/com/valura/auth/scim/service/ScimUserService.java:126-184 | when the offset fits an int, startIndex p + 1 with count n lists exactly the mapped rows of page p of size n of the matches |
| UserService.StartIndexIsPageNumber | scim/src/main/java/com/valura/auth/scim/service/ScimUserService.java:126 | over 25 users, startIndex 21 with count 10 returns no resources and totalResults 25 |
| UserService.ItemsPerPageCountsResources | scim/src/main/java/com/valura/auth/scim/service/ScimUserService.java:184 | two users under count 10 give itemsPerPage 2 |
| UserService.OffsetOverflowAnswersEmpty | scim/src/main/java/com/valura/auth/scim/service/ScimUserService.java:125-197 | startIndex 30,000,001 with count 100 overflows the offset and the catch answers no users, totalResults 0 and itemsPerPage 100 |
| GroupService.MemberOf | scim/src/main/java/com/valura/auth/scim/service/ScimGroupService.java:162-166 | a member entry holds the user's id, "/scim/v2/Users/" plus the id, and the userName |
| GroupService.MemberList | scim/src/main/java/com/valura/auth/scim/service/ScimGroupService.java:160-168 | one member entry per listed user, in order |
| GroupService.TokenInputRunsFieldsTogether | scim/src/main/java/com/valura/auth/scim/service/ScimGroupService.java:202-210 | displayName "a" with member "bc" and displayName "ab" with member "c" give the same token input |
| GroupService.TokenInputSeparatesDisplayName | scim/src/main/java/com/valura/auth/scim/service/ScimGroupService.java:202-204 | with id and members fixed, the token input changes exactly when the rendered displayName does |
| GroupService.MembersAttribute | scim/src/main/java/com/valura/auth/scim/service/ScimGroupService.java:159-170 | the members attribute is present exactly when the set is non-empty, with one entry per member, each naming a member of the set |
| GroupService.MapToScimGroup | scim/src/main/java/com/valura/auth/scim/service/ScimGroupService.java:154-197 | the members attribute is present exactly when the set is non-empty, with one entry per member; resourceType "Group" and location "/scim/v2/Groups/" plus the id; the version digests id, displayName and member values, with no timestamp |
| GroupService.MemberValuesAgree | scim/src/main/java/com/valura/auth/scim/service/ScimGroupService.java:206-210 | the member part of the token depends only on the member values |
| GroupService.VersionIgnoresTimestamps | scim/src/main/java/com/valura/auth/scim/service/ScimGroupService.java:187-194 | two groups equal on externalId, displayName and members carry the same token, whatever their timestamps |
| GroupService.AttachEach | scim/src/main/java/com/valura/auth/scim/service/ScimGroupService.java:82-86 | the member loop succeeds exactly when every value names a stored user, and then attaches exactly the named users; otherwise it fails with "User not found: " plus the first unresolved value |
| GroupService.ResolvedPrefix | scim/src/main/java/com/valura/auth/scim/service/ScimGroupService.java:82-86 | the length of the head of the list whose entries all resolve; the entry after it, if any, does not |
| GroupService.AttachFailsAtPrefix | scim/src/main/java/com/valura/auth/scim/service/ScimGroupService.java:82-86 | a failed member loop fails at the entry just after the resolved head |
| GroupService.AttachedPrefix | scim/src/main/java/com/valura/auth/scim/service/ScimGroupService.java:82-86 | the store a throwing loop leaves is the store with the edges to the users of the resolved head attached, and no others added |
| GroupService.UnresolvedMember | scim/src/main/java/com/valura/auth/scim/service/ScimGroupService.java:82-86 | a failed member loop names a requested member that no stored user resolves |
| GroupService.ClearMembers | scim/src/main/java/com/valura/auth/scim/service/ScimGroupService.java:75-79 | the group loses all members, each former member loses the group, and nothing else changes |
| GroupService.NewGroupRow | scim/src/main/java/com/valura/auth/scim/service/ScimGroupService.java:41-45 | the created row has the drawn id, the resource's displayName, no members and createdAt = updatedAt = now |
| GroupService.PopulateNewGroup | scim/src/main/java/com/valura/auth/scim/service/ScimGroupService.java:47-54 | the member loop of create succeeds exactly when every member resolves, attaching the named users; a failure names the first unresolved entry and commits the inserted row with the edges to the entries before it |
| GroupService.CreateGroup | scim/src/main/java/com/valura/auth/scim/service/ScimGroupService.java:39-57 | a taken id or a row the constraints refuse fails with nothing written; otherwise it succeeds exactly when every member resolves, storing the group with exactly the requested members and answering its mapping; an unresolved member fails not-found naming the first one, and the new row stays with the members before it |
| GroupService.GetGroup | scim/src/main/java/com/valura/auth/scim/service/ScimGroupService.java:59-63 | it succeeds exactly for a stored id, with that group's mapping, and otherwise fails with not-found "Group not found" |
| GroupService.CommitGroup | scim/src/main/java/com/valura/auth/scim/service/ScimGroupService.java:90-91 | the flushed row is written exactly when the constraints accept it, and the answer is the mapping of the written entity before the flush, read over the committed store |
| GroupService.MappingReadsUsersOnly | scim/src/main/java/com/valura/auth/scim/service/ScimGroupService.java:154-197 | the mapping of a group depends on the users table only, not on the group rows or the users' group sets |
| GroupService.CheckCurrent | scim/src/main/java/com/valura/auth/scim/service/ScimGroupService.java:67-71 | the write proceeds exactly when the group exists and If-Match passes against its current token; otherwise not-found or "ETag mismatch" |
| GroupService.ClearThenAttach | scim/src/main/java/com/valura/auth/scim/service/ScimGroupService.java:75-88 | clearing and then attaching a set leaves the group with exactly that set and no other group changed |
| GroupService.ResetMembers | scim/src/main/java/com/valura/auth/scim/service/ScimGroupService.java:75-90 | on success the group's members are exactly the named users; it succeeds exactly when every entry resolves and the flushed row passes the constraints; an unresolved entry fails naming the first one and commits the row with the members before it; a constraint failure writes nothing; a success answers the mapping of the row with the named members, before the flush |
| GroupService.ReplaceGroup | scim/src/main/java/com/valura/auth/scim/service/ScimGroupService.java:65-92 | lookup and If-Match failures come first with the store unchanged; it succeeds exactly when they pass, every member resolves and the replaced row passes the constraints, setting displayName (null included) and making the members exactly the requested users; past the check it is the replace writes; a success answers the mapping of the loaded row with the sent displayName and the requested members, so the response lists those members and carries the loaded created and lastModified and the token over them |
| GroupService.ReplaceWrites | scim/src/main/java/com/valura/auth/scim/service/ScimGroupService.java:73-91 | once If-Match passes it succeeds exactly when every member resolves and the replaced row passes the constraints; an unresolved member fails naming the first one and commits the rename with the members before it; a constraint failure writes nothing; a success answers the mapping of the loaded row with the sent displayName and the requested members, before the flush |
| GroupService.SentMembers | scim/src/main/java/com/valura/auth/scim/service/ScimGroupService.java:81-88 | the list the attach loop walks names exactly the requested users, and is empty when no list was sent |
| GroupService.PatchGroup | scim/src/main/java/com/valura/auth/scim/service/ScimGroupService.java:94-126 | the same failures as replace; it succeeds exactly when they pass, any sent member resolves and the patched row passes the constraints, changing displayName only when supplied and membership only when a list, possibly empty, is supplied; a success answers the mapping of the loaded row with the patched displayName and membership, with the loaded timestamps and the token over them |
| GroupService.PatchWrites | scim/src/main/java/com/valura/auth/scim/service/ScimGroupService.java:102-125 | once If-Match passes it succeeds exactly when any sent member resolves and the patched row passes the constraints; an unresolved member fails naming the first one and commits the patched name with the members before it; a constraint failure writes nothing; a success answers the mapping of the loaded row with the patched displayName and membership, before the flush |
| GroupService.ReplacedRow | scim/src/main/java/com/valura/auth/scim/service/ScimGroupService.java:73-90 | the committed row keeps id and createdAt, takes the sent displayName and members, and is stamped now exactly when the displayName changed |
| GroupService.PatchedRow | scim/src/main/java/com/valura/auth/scim/service/ScimGroupService.java:102-124 | the committed row keeps id and createdAt, takes only the supplied displayName and members, and is stamped now exactly when the displayName changed |
| GroupService.Renamed | scim/src/main/java/com/valura/auth/scim/service/ScimGroupService.java:73 | `setDisplayName` changes that one field of that one group, and keys, symmetry and member resolution survive |
| GroupService.DeleteGroup | scim/src/main/java/com/valura/auth/scim/service/ScimGroupService.java:128-133 | an unknown id is not-found with the store unchanged; otherwise the group row goes and every user row stays as it was |
| GroupService.Relink | scim/src/main/java/com/valura/auth/scim/service/ScimGroupService.java:75-90 | the store with the group's row replaced and its edges re-pointed: a user lists the group exactly when it is in the new member set, and nothing else changes |
| GroupService.RelinkKeepsConsistency | scim/src/main/java/com/valura/auth/scim/service/ScimGroupService.java:75-90 | a relink whose row the constraints accept keeps the store consistent |
| GroupService.ReplaceGroupRelinks | scim/src/main/java/com/valura/auth/scim/service/ScimGroupService.java:73-91 | a successful replace on a consistent store is exactly the relink of the group to the replaced row and the requested members |
| GroupService.ResetAbortedRelinks | scim/src/main/java/com/valura/auth/scim/service/ScimGroupService.java:75-90 | a membership reset that throws and then commits is the relink of the group to the users of the resolved head |
| GroupService.ReplaceWritesFailureRelinks | scim/src/main/java/com/valura/auth/scim/service/ScimGroupService.java:73-91 | a replace whose member loop throws on a consistent store commits the relink of the group, renamed, to the users of the resolved head, and the store stays consistent |
| GroupService.PatchWritesFailureRelinks | scim/src/main/java/com/valura/auth/scim/service/ScimGroupService.java:102-125 | a patch whose member loop throws on a consistent store commits the relink of the group, under the patched name, to the users of the resolved head, and the store stays consistent |
| GroupService.PatchGroupRelinks | scim/src/main/java/com/valura/auth/scim/service/ScimGroupService.java:102-125 | a successful patch on a consistent store is exactly the relink of the group to the patched row and the patched membership |
| GroupService.ReplaceGroupKeepsConsistency | scim/src/main/java/com/valura/auth/scim/service/ScimGroupService.java:65-92 | a replace keeps the store consistent whatever it answers |
| GroupService.PatchGroupKeepsConsistency | scim/src/main/java/com/valura/auth/scim/service/ScimGroupService.java:94-126 | a patch keeps the store consistent whatever it answers |
| GroupService.InsertKeepsConsistency | scim/src/main/java/com/valura/auth/scim/service/ScimGroupService.java:45 | inserting a fresh group row without members keeps the store consistent |
| GroupService.InsertThenAttach | scim/src/main/java/com/valura/auth/scim/service/ScimGroupService.java:45-54 | inserting a fresh group and attaching stored users keeps the store consistent, and exactly those users list it |
| GroupService.CreateGroupKeepsConsistency | scim/src/main/java/com/valura/auth/scim/service/ScimGroupService.java:39-57 | a successful create under a fresh id keeps the store consistent, and exactly the requested users list the new group |
| GroupService.CreateGroupFailureKeepsConsistency | scim/src/main/java/com/valura/auth/scim/service/ScimGroupService.java:39-57 | a create that throws on a member after a good insert commits a consistent store in which the new group holds exactly the users of the resolved head, and only they list it |
| GroupService.CreateThenGetGroup | scim/src/main/java/com/valura/auth/scim/service/ScimGroupService.java:39-63 | what create answers is what a later get answers, and its token passes the next If-Match |
| GroupService.DeleteGroupKeepsConsistency | scim/src/main/java/com/valura/auth/scim/service/ScimGroupService.java:128-133 | delete keeps the four store invariants |
| GroupService.DeleteGroupLeavesDanglingIds | scim/src/main/java/com/valura/auth/scim/service/ScimGroupService.java:128-133 | in a schema without the join table's foreign key, after delete every former member still holds the deleted id in its group set, so some user row names a group that no longer exists |
| GroupService.CommitReturnsCurrentTag | scim/src/main/java/com/valura/auth/scim/service/ScimGroupService.java:90-91 | the pre-flush response carries the token the committed row has |
| GroupService.ReplaceGroupReturnsCurrentTag | scim/src/main/java/com/valura/auth/scim/service/ScimGroupService.java:90-91 | the token a successful replace answers is accepted as If-Match by the next write of the group |
| GroupService.PatchGroupReturnsCurrentTag | scim/src/main/java/com/valura/auth/scim/service/ScimGroupService.java:124-125 | the token a successful patch answers is accepted as If-Match by the next write of the group |
| GroupService.ResetMembersReturnsCurrentTag | scim/src/main/java/com/valura/auth/scim/service/ScimGroupService.java:109-125 | the response after a membership reset carries the token of the committed row |
| GroupService.GroupListing | scim/src/main/java/com/valura/auth/scim/service/ScimGroupService.java:141 | the unsorted scan lists every stored group once |
| GroupService.PageIndex | scim/src/main/java/com/valura/auth/scim/service/ScimGroupService.java:136-137 | the page index is startIndex − 1 in int arithmetic, 0 when absent; Integer.MIN_VALUE wraps to Integer.MAX_VALUE |
| GroupService.MapGroups | scim/src/main/java/com/valura/auth/scim/service/ScimGroupService.java:142-144 | the resources are the mappings of the listed groups, in order |
| GroupService.SearchGroups | scim/src/main/java/com/valura/auth/scim/service/ScimGroupService.java:135-152 | it fails exactly when the page index is negative, the size below one or the offset page·size beyond Integer.MAX_VALUE, with the page-request error for the first two; otherwise totalResults is the group count, startIndex and itemsPerPage echo the request (defaults 1 and 100), and at most a page of resources comes back |
| GroupService.SearchGroupsListsPage | scim/src/main/java/com/valura/auth/scim/service/ScimGroupService.java:136-144 | when the offset fits an int, startIndex p + 1 with count n lists exactly the mapped groups of page p of the table |
| GroupService.GroupAt | scim/src/main/java/com/valura/auth/scim/service/ScimGroupService.java:136-144 | the mapping of the group at a table position carries that group's id |
| GroupService.SearchGroupsPageEntry | scim/src/main/java/com/valura/auth/scim/service/ScimGroupService.java:136-144 | the group at table position q·n + j, with j < n, is entry j of the page startIndex q + 1 with count n returns |
| GroupService.SearchGroupsReachesEveryGroup | scim/src/main/java/com/valura/auth/scim/service/ScimGroupService.java:136-144 | the group at table position k is entry k mod n of the page startIndex k div n + 1 returns |
| GroupService.SearchGroupsEdgeCases | scim/src/main/java/com/valura/auth/scim/service/ScimGroupService.java:136-150 | startIndex 0 and count 0 are refused; Integer.MIN_VALUE wraps to the last page and fails on the offset, as does 30,000,000 under the default count, while count 1 there answers no groups; count 10 over two groups answers both, with itemsPerPage 10 |
| UserMapper.ToEntity | scim/src/main/java/com/valura/auth/scim/mapper/ScimUserMapper.java:17-28 | userName, displayName, active and the first email's value are copied and all else is unset; a null active has no entity (the unboxing throws) |
| UserMapper.GroupRefOf | scim/src/main/java/com/valura/auth/scim/mapper/ScimUserMapper.java:51-60 | a group entry holds the group's id, "/scim/v2/Groups/" plus the id, and the displayName |
| UserMapper.MapperMeta | scim/src/main/java/com/valura/auth/scim/mapper/ScimUserMapper.java:66-89 | resourceType as given, location is the path plus the id, each timestamp is present exactly when the instant is, at its milliseconds, and there is no version |
| UserMapper.ToScim | scim/src/main/java/com/valura/auth/scim/mapper/ScimUserMapper.java:30-91 | the id and the four columns are copied; the groups attribute lists the user's groups as loaded through the join; resourceType "User", location "/scim/v2/Users/" plus the id |
| UserMapper.RefList | scim/src/main/java/com/valura/auth/scim/mapper/ScimUserMapper.java:50-62 | one entry per id, in order; each entry is the entry of one of the ids, and every id's entry is present |
| UserMapper.GroupsAttribute | scim/src/main/java/com/valura/auth/scim/mapper/ScimUserMapper.java:48-63 | the groups attribute is present exactly when some group the user lists still has a row; there is one entry per such group, and each entry names one of them |
| UserMapper.ResolvedGroupsAllListed | scim/src/main/java/com/valura/auth/scim/mapper/ScimUserMapper.java:48-63 | when every group the user lists exists, the attribute names exactly the user's groups, one entry each, and is unset for a user in no group |
| UserMapper.DeletedGroupNotListed | scim/src/main/java/com/valura/auth/scim/service/ScimGroupService.java:128-133 | after a group delete the user row is unchanged, yet the mapped user never lists the deleted group, and it lists each of the user's other stored groups with the same entry as before |
| UserMapper.EntityRoundTrip | scim/src/main/java/com/valura/auth/scim/mapper/ScimUserMapper.java:17-46 | entity to resource and back keeps userName, displayName, active and email and nothing else |
| UserMapper.ResourceRoundTrip | scim/src/main/java/com/valura/auth/scim/mapper/ScimUserMapper.java:17-46 | resource to entity and back keeps userName, displayName, active and the first email, and drops the id, the name and the groups |
| UserMapper.MapperAgreesWithService | scim/src/main/java/com/valura/auth/scim/mapper/ScimUserMapper.java:30-91 | for a user in no group and without names, the mapper and the service's mapping differ only in the version |
| GroupMapper.ToEntity | scim/src/main/java/com/valura/auth/scim/mapper/ScimGroupMapper.java:16-21 | the externalId is the resource's id, or the fresh id when it has none; the displayName is copied; there are no members or timestamps |
| GroupMapper.ToScim | scim/src/main/java/com/valura/auth/scim/mapper/ScimGroupMapper.java:23-47 | id and displayName are copied and members never set; resourceType "Group", location "/scim/v2/Groups/" plus the id |
| GroupMapper.EntityRoundTrip | scim/src/main/java/com/valura/auth/scim/mapper/ScimGroupMapper.java:16-26 | entity to resource and back keeps externalId and displayName and drops members and timestamps |
| GroupMapper.ResourceRoundTrip | scim/src/main/java/com/valura/auth/scim/mapper/ScimGroupMapper.java:16-47 | resource to entity and back keeps the displayName and keeps the id or fills in the fresh one |
| GroupMapper.MapperAgreesWithService | scim/src/main/java/com/valura/auth/scim/mapper/ScimGroupMapper.java:23-47 | for a group without members, the mapper and the service's mapping differ only in the version |
| Authorization.SplitAll | scim/src/main/java/com/valura/auth/scim/service/ScimAuthorizationService.java:24 | cutting at each single space gives at least one piece and no piece contains a space |
| Authorization.SplitAllJoins | scim/src/main/java/com/valura/auth/scim/service/ScimAuthorizationService.java:24 | joining the pieces with single spaces gives the claim back |
| Authorization.SplitJoin | scim/src/main/java/com/valura/auth/scim/service/ScimAuthorizationService.java:24 | cutting a join of space-free pieces gives the pieces back |
| Authorization.DropTrailingEmpties | scim/src/main/java/com/valura/auth/scim/service/ScimAuthorizationService.java:24 | `split` drops exactly the empty pieces at the end |
| Authorization.ExtractScopes | scim/src/main/java/com/valura/auth/scim/service/ScimAuthorizationService.java:19-25 | a null or empty claim gives no scopes; otherwise the scopes are the space-separated pieces without the trailing empty ones, and none contains a space |
| Authorization.ScopesRoundTrip | scim/src/main/java/com/valura/auth/scim/service/ScimAuthorizationService.java:19-25 | non-empty, space-free scopes joined by single spaces are extracted back unchanged |
| Authorization.DefinedScopesRoundTrip | scim/src/main/java/com/valura/auth/scim/service/ScimScopes.java:6-12 | the seven defined scopes survive a join and an extraction |
| Authorization.CheckPermission | scim/src/main/java/com/valura/auth/scim/service/ScimAuthorizationService.java:27-40 | it passes exactly when the principal is authenticated and holds the scope or `scim:admin`; otherwise "Authentication required." or the missing-scope message |
| Authorization.AnyGranted | scim/src/main/java/com/valura/auth/scim/service/ScimAuthorizationService.java:56-60 | the loop finds a granted scope exactly when one of the required scopes is held |
| Authorization.ArrayText | scim/src/main/java/com/valura/auth/scim/service/ScimAuthorizationService.java:61 | `Arrays.toString` is bracketed |
| Authorization.CheckAnyPermission | scim/src/main/java/com/valura/auth/scim/service/ScimAuthorizationService.java:42-62 | it passes exactly when the principal is authenticated and is an admin or holds one of the scopes; otherwise "Authentication required." or the missing-one-of message with the list |
| Authorization.AdminAndAnonymous | scim/src/main/java/com/valura/auth/scim/service/ScimAuthorizationService.java:27-54 | an authenticated admin passes both checks; an unauthenticated principal fails both with "Authentication required." |
| Authorization.NoScopesOnlyAdmin | scim/src/main/java/com/valura/auth/scim/service/ScimAuthorizationService.java:52-61 | with no scopes to choose from, only an authenticated admin passes |
| Authorization.SingleScopeAgrees | scim/src/main/java/com/valura/auth/scim/service/ScimAuthorizationService.java:27-62 | asking for one scope either way gives the same decision |
| Authorization.ChecksAreMonotone | scim/src/main/java/com/valura/auth/scim/service/ScimAuthorizationService.java:37-59 | granting more scopes never turns a pass into a failure |

## Left out

- I/O, logging (`System.out`, `System.err`), HTTP routing, the controllers and the exception handler: the core's decisions do not depend on them.
- SHA-1, hex encoding, `UUID.randomUUID` and `Instant.now`: foreign calls, passed in as `digest`, `newId` and `now`.
- URI validation (`URI.create` throwing on a malformed id): ids are treated as well-formed text.
- Unicode case folding: `toLowerCase`, `equalsIgnoreCase` and the database's case-insensitive match are modelled on ASCII letters only.
- Foreign keys of the `user_groups` join table: the JPA mapping's DDL is not part of this model, so the model follows a schema without them. With the generated key, deleting a group that still has members fails at commit and rolls back; the model instead commits the delete and leaves the join rows as they are (see "Group delete" above).
- The order of `HashSet` iteration and of an unsorted table scan: a fixed, unspecified order (`Enumeration.SetToSeq`). The group service, the member lists and both searches are therefore ghost.
- Hibernate's flush order, dirty checking beyond "a column changed", concurrency and row locking.
- Null elements inside a member or email list, and a null element of a varargs scope list.
- GroupService.SearchGroups: the filter argument is accepted and ignored, as in the code.
- GroupService.SearchGroups: `PageRequest.of` throwing on a negative page or a size below one is modelled as the error `InvalidPageRequest`, not as a precondition.
- GroupService.SearchGroups: Spring Data JPA refusing an offset beyond Integer.MAX_VALUE is the error `OffsetOutOfRange`; which exception class carries it is not modelled.
- UserService.CreateUser: requires `active` to be present, because `setActive(boolean)` unboxes it and a null throws; the exception itself is not modelled.
- UserService.ReplaceUser: requires `active` to be present, for the same reason.
- UserService.QueryUsers: an exception inside the search's try block is the parameter `fault`; which repository or mapping call raises it is not modelled.
- Authorization.ExtractScopes: takes the claim as a nullable string; JWT decoding and the Spring `SecurityContext` are abstracted to a `Principal` with an authenticated flag and a set of scopes.
- The translation of a denied scope check into a 403 response belongs to the exception handler and is not modelled.
- UserMapper.ToScim: lists the user's loaded groups in a fixed, unspecified set order, not in the order the join returns them.
