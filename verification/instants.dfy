/** java.time.Instant reduced to what the SCIM core uses: a point on the
    time line with nanosecond resolution, and its conversion to and from
    the epoch milliseconds a UTC Calendar holds. */
module Instants {

  const NANOS_PER_MILLI: int := 1_000_000

  datatype Instant = Instant(epochNanos: int)

  /** `Instant.toEpochMilli()`: rounds towards negative infinity (Dafny's `/`
      with a positive divisor is floor division). */
  function ToEpochMilli(i: Instant): (ms: int)
    ensures ms * NANOS_PER_MILLI <= i.epochNanos < (ms + 1) * NANOS_PER_MILLI
  {
    i.epochNanos / NANOS_PER_MILLI
  }

  /** `Instant.ofEpochMilli(ms)`, which is also `Calendar.toInstant()`. */
  function OfEpochMilli(ms: int): (i: Instant)
    ensures ToEpochMilli(i) == ms
  {
    Instant(ms * NANOS_PER_MILLI)
  }

  /** An instant without a sub-millisecond part. */
  predicate WholeMillis(i: Instant) {
    i.epochNanos % NANOS_PER_MILLI == 0
  }

  /** Going through a Calendar loses exactly the sub-millisecond part. */
  lemma MillisRoundTrip(i: Instant)
    ensures OfEpochMilli(ToEpochMilli(i)) == i <==> WholeMillis(i)
  {
  }
}
