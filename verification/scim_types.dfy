/** The external resource shapes of RFC 7643 as the SCIM 2 SDK types carry
    them (UserResource, GroupResource, Meta, Name, Email, Group, Member) and
    the list envelope of RFC 7644 section 3.4.2. Every field is a nullable
    Java reference, hence an Option. A Calendar is represented by its epoch
    milliseconds and a URI by its text. */
module ScimTypes {
  import opened Wrappers

  datatype Meta = Meta(
    resourceType: Option<string>,
    created: Option<int>,
    lastModified: Option<int>,
    location: Option<string>,
    version: Option<string>)

  const EmptyMeta: Meta := Meta(None, None, None, None, None)

  datatype Name = Name(formatted: Option<string>, familyName: Option<string>, givenName: Option<string>)

  datatype Email = Email(value: Option<string>, primary: Option<bool>, emailType: Option<string>)

  /** A user's group reference (the SDK's `Group` sub-attribute type). */
  datatype GroupRef = GroupRef(value: Option<string>, ref: Option<string>, display: Option<string>)

  /** A group's member reference. */
  datatype Member = Member(value: Option<string>, ref: Option<string>, display: Option<string>)

  datatype UserResource = UserResource(
    id: Option<string>,
    userName: Option<string>,
    displayName: Option<string>,
    active: Option<bool>,
    name: Option<Name>,
    emails: Option<seq<Email>>,
    groups: Option<seq<GroupRef>>,
    meta: Option<Meta>)

  /** A UserResource with every attribute unset (`new UserResource()`). */
  const EmptyUser: UserResource := UserResource(None, None, None, None, None, None, None, None)

  datatype GroupResource = GroupResource(
    id: Option<string>,
    displayName: Option<string>,
    members: Option<seq<Member>>,
    meta: Option<Meta>)

  const EmptyGroup: GroupResource := GroupResource(None, None, None, None)

  /** ScimListResponse: the page of resources and its paging metadata. */
  datatype ListResponse<T> = ListResponse(
    resources: seq<T>,
    totalResults: int,
    startIndex: int,
    itemsPerPage: int)

  const LIST_RESPONSE_SCHEMA: string := "urn:ietf:params:scim:api:messages:2.0:ListResponse"

  const USERS_PATH: string := "/scim/v2/Users/"
  const GROUPS_PATH: string := "/scim/v2/Groups/"
}
