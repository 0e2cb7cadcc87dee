/** The version token both services attach to a resource's meta, and the
    If-Match check that guards replace and patch. The digest itself (SHA-1
    followed by lower-case hex) is a parameter `digest` of the model. */
module VersionTags {
  import opened Wrappers
  import opened ScimTypes
  import opened ScimErrors
  import JavaText

  const WEAK_PREFIX: string := "W/\""

  /** `"W/\"" + hex + "\""`: a weak entity tag (RFC 7232 section 2.3). */
  function WeakTag(hex: string): (t: string)
    ensures |t| == |hex| + 4
    ensures t[..3] == WEAK_PREFIX && t[|t| - 1] == '"'
    ensures t[3..|t| - 1] == hex
  {
    WEAK_PREFIX + hex + "\""
  }

  /** Distinct digests give distinct tags: the wrapping loses nothing. */
  lemma WeakTagInjective(a: string, b: string)
    ensures WeakTag(a) == WeakTag(b) <==> a == b
  {
    if WeakTag(a) == WeakTag(b) {
      assert a == WeakTag(a)[3..|WeakTag(a)| - 1];
    }
  }

  /** The last term of the token input: the resource's lastModified in epoch
      milliseconds when the resource already carries a meta with one, and
      the empty string otherwise. */
  function LastModifiedTerm(meta: Option<Meta>): (r: string)
    ensures r == "" <==> meta.None? || meta.value.lastModified.None?
    ensures r != "" ==> r == JavaText.LongText(meta.value.lastModified.value)
  {
    if meta.Some? && meta.value.lastModified.Some? then JavaText.LongText(meta.value.lastModified.value) else ""
  }

  /** `validateETag(current, ifMatch)`: an absent or empty If-Match always
      passes; any other value must equal the current token exactly. */
  function ValidateETag(current: string, ifMatch: Option<string>): (r: Outcome<ProtocolError>)
    ensures r.Pass? <==> ifMatch.None? || |ifMatch.value| == 0 || ifMatch.value == current
    ensures r.Fail? ==> r.error == PreconditionFailed("ETag mismatch")
  {
    if ifMatch.Some? && ifMatch.value != "" && current != ifMatch.value then
      Fail(PreconditionFailed("ETag mismatch"))
    else
      Pass
  }

  /** Supplying the token the resource currently carries always passes,
      and so does supplying none; supplying any other non-empty value fails. */
  lemma ValidationAcceptsOnlyCurrent(current: string, other: string)
    requires other != "" && other != current
    ensures ValidateETag(current, Some(current)).Pass?
    ensures ValidateETag(current, None).Pass? && ValidateETag(current, Some("")).Pass?
    ensures ValidateETag(current, Some(other)) == Fail(PreconditionFailed("ETag mismatch"))
  {
  }
}
