/** The clock units shared by the systems: every time value is a count of nanoseconds. */
module Time {

  const NANOS_PER_MILLI: nat := 1_000_000
  const NANOS_PER_SEC: nat := 1_000_000_000

  /** A point on the monotonic clock (`std::time::Instant`). */
  type Instant = nat

  /** A span of time (`std::time::Duration`). */
  type Duration = nat
}
