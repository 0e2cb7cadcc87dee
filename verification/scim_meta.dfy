/** ScimMeta: the service's own copy of a resource's meta attribute
    (RFC 7643 section 3.1), with Instant timestamps and a text location, and
    its conversions to and from the SDK's Meta (Calendar timestamps, URI
    location). */
module ScimMetaModel {
  import opened Wrappers
  import opened Instants
  import opened ScimTypes

  datatype ScimMeta = ScimMeta(
    resourceType: Option<string>,
    created: Option<Instant>,
    lastModified: Option<Instant>,
    location: Option<string>,
    version: Option<string>)

  /** `new ScimMeta()`: every field null. */
  const EmptyScimMeta: ScimMeta := ScimMeta(None, None, None, None, None)

  /** `calendar.toInstant()` on a nullable Calendar. */
  function CalendarToInstant(c: Option<int>): (r: Option<Instant>)
    ensures r.Some? <==> c.Some?
    ensures r.Some? ==> ToEpochMilli(r.value) == c.value
  {
    match c
    case None => None
    case Some(ms) => Some(OfEpochMilli(ms))
  }

  /** A UTC Calendar set to `instant.toEpochMilli()`, on a nullable Instant. */
  function InstantToCalendar(i: Option<Instant>): (r: Option<int>)
    ensures r.Some? <==> i.Some?
    ensures r.Some? ==> r.value == ToEpochMilli(i.value)
  {
    match i
    case None => None
    case Some(t) => Some(ToEpochMilli(t))
  }

  /** `new ScimMeta(meta)`: a null Meta leaves every field null; otherwise
      resource type and version are copied, the Calendars become Instants
      and the URI becomes its text. */
  function FromMeta(meta: Option<Meta>): (r: ScimMeta)
    ensures meta.None? ==> r == EmptyScimMeta
    ensures meta.Some? ==> r.resourceType == meta.value.resourceType && r.version == meta.value.version
    ensures meta.Some? ==> r.location == meta.value.location
    ensures meta.Some? ==> (r.created.Some? <==> meta.value.created.Some?)
    ensures meta.Some? ==> (r.lastModified.Some? <==> meta.value.lastModified.Some?)
    ensures meta.Some? && r.created.Some? ==>
              WholeMillis(r.created.value) && ToEpochMilli(r.created.value) == meta.value.created.value
    ensures meta.Some? && r.lastModified.Some? ==>
              WholeMillis(r.lastModified.value) && ToEpochMilli(r.lastModified.value) == meta.value.lastModified.value
  {
    match meta
    case None => EmptyScimMeta
    case Some(m) =>
      ScimMeta(m.resourceType, CalendarToInstant(m.created), CalendarToInstant(m.lastModified),
               m.location, m.version)
  }

  /** `toUnboundIDMeta()`: the reverse conversion; absent fields stay absent. */
  function ToUnboundIdMeta(m: ScimMeta): (r: Meta)
    ensures r.resourceType == m.resourceType && r.version == m.version && r.location == m.location
    ensures r.created.Some? <==> m.created.Some?
    ensures r.lastModified.Some? <==> m.lastModified.Some?
    ensures r.created.Some? ==> r.created.value == ToEpochMilli(m.created.value)
    ensures r.lastModified.Some? ==> r.lastModified.value == ToEpochMilli(m.lastModified.value)
  {
    Meta(m.resourceType, InstantToCalendar(m.created), InstantToCalendar(m.lastModified),
         m.location, m.version)
  }

  predicate WholeMillisOrAbsent(i: Option<Instant>) {
    i.None? || WholeMillis(i.value)
  }

  /** Converting to the SDK's Meta and back gives the same ScimMeta exactly
      when both timestamps carry no sub-millisecond part. */
  lemma ScimMetaRoundTrip(m: ScimMeta)
    ensures FromMeta(Some(ToUnboundIdMeta(m))) == m
            <==> WholeMillisOrAbsent(m.created) && WholeMillisOrAbsent(m.lastModified)
  {
    var r := FromMeta(Some(ToUnboundIdMeta(m)));
    if m.created.Some? {
      MillisRoundTrip(m.created.value);
    }
    if m.lastModified.Some? {
      MillisRoundTrip(m.lastModified.value);
    }
  }

  /** The other direction loses nothing: a Calendar already holds whole
      milliseconds. */
  lemma MetaRoundTrip(meta: Meta)
    ensures ToUnboundIdMeta(FromMeta(Some(meta))) == meta
  {
  }

  /** ScimMeta.Builder: each setter records one field; `build()` copies the
      five recorded fields into a fresh ScimMeta. */
  datatype Builder = Builder(
    resourceType: Option<string>,
    created: Option<Instant>,
    lastModified: Option<Instant>,
    location: Option<string>,
    version: Option<string>)
  {
    function SetResourceType(x: Option<string>): Builder { this.(resourceType := x) }
    function SetCreated(x: Option<Instant>): Builder { this.(created := x) }
    function SetLastModified(x: Option<Instant>): Builder { this.(lastModified := x) }
    function SetLocation(x: Option<string>): Builder { this.(location := x) }
    function SetVersion(x: Option<string>): Builder { this.(version := x) }

    function Build(): ScimMeta {
      ScimMeta(resourceType, created, lastModified, location, version)
    }
  }

  /** `ScimMeta.builder()`. */
  const NewBuilder: Builder := Builder(None, None, None, None, None)

  /** A builder chain yields exactly the supplied fields, in whatever order
      the setters are called, and fields never set stay null. */
  lemma BuilderYieldsSuppliedFields(rt: Option<string>, c: Option<Instant>, lm: Option<Instant>,
                                    loc: Option<string>, v: Option<string>)
    ensures NewBuilder.SetResourceType(rt).SetCreated(c).SetLastModified(lm).SetLocation(loc).SetVersion(v).Build()
            == ScimMeta(rt, c, lm, loc, v)
    ensures NewBuilder.SetVersion(v).SetLocation(loc).SetLastModified(lm).SetCreated(c).SetResourceType(rt).Build()
            == ScimMeta(rt, c, lm, loc, v)
    ensures NewBuilder.Build() == EmptyScimMeta
  {
  }
}
