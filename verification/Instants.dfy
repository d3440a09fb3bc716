/**
 * Time as the library uses it: bounded nanosecond counts, checked arithmetic and
 * the NotBefore / NotOnOrAfter window check of src/validator.rs.
 */
module Instants {
  import opened Prelude

  const NANOS_PER_MILLI: int := 1_000_000

  // The calendar years -9999 to 9999 of the `time` crate, in nanoseconds of Unix time.
  const MIN_INSTANT: int := -377_705_116_800 * 1_000_000_000
  const MAX_INSTANT: int := 253_402_300_799 * 1_000_000_000 + 999_999_999

  // 0000-01-01T00:00:00Z: earlier instants have no four-digit year, so their printed
  // form is not an RFC 3339 timestamp.
  const YEAR_ZERO: int := -62_167_219_200 * 1_000_000_000

  /** `SystemTime`: its range is the platform's. */
  type SystemTime = int

  datatype Platform = Platform(earliest: SystemTime, latest: SystemTime) {
    function CheckedAdd(t: SystemTime, delta: nat): Option<SystemTime> {
      if t + delta <= latest then Some(t + delta) else None
    }
  }

  /** `OffsetDateTime`, compared as UTC. */
  type Instant = t: int | MIN_INSTANT <= t <= MAX_INSTANT witness 0

  type Millis = m: int | -0x8000_0000_0000_0000 <= m < 0x8000_0000_0000_0000 witness 0

  /** The text of a timestamp attribute, as the RFC 3339 parser sees it. */
  datatype Stamp = Unparseable | At(t: Instant)

  /** The two drifts `(not_before_ms, not_on_or_after_ms)`. */
  datatype ClockSkew = ClockSkew(notBefore: Millis, notOnOrAfter: Millis)

  function FromMillis(m: Millis): int {
    m * NANOS_PER_MILLI
  }

  function CheckedAdd(t: Instant, delta: int): Option<Instant> {
    if MIN_INSTANT <= t + delta <= MAX_INSTANT then Some(t + delta) else None
  }

  function InstantFromSystem(t: SystemTime): Result<Instant, SamlError> {
    if MIN_INSTANT <= t <= MAX_INSTANT then Ok(t) else Err(Invalid)
  }

  function SystemFromInstant(t: Instant, platform: Platform): Result<SystemTime, SamlError> {
    if platform.earliest <= t <= platform.latest then Ok(t) else Err(TimeWindowInvalid(ReplayExpiration))
  }

  /** The stamp that reading back the printed form of `t` gives. */
  function Printed(t: Instant): Stamp {
    if t < YEAR_ZERO then Unparseable else At(t)
  }

  predicate VerifyTimeAt(notBefore: Option<Stamp>, notOnOrAfter: Option<Stamp>, drift: ClockSkew, now: Instant) {
    match (notBefore, notOnOrAfter)
    case (None, None) => true
    case (Some(nb), None) => nb.At? && LowerBoundMet(nb.t, drift, now)
    case (None, Some(na)) => na.At? && UpperBoundMet(na.t, drift, now)
    case (Some(nb), Some(na)) =>
      nb.At? && na.At? && LowerBoundMet(nb.t, drift, now) && UpperBoundMet(na.t, drift, now)
  }

  predicate LowerBoundMet(bound: Instant, drift: ClockSkew, now: Instant) {
    var shifted := CheckedAdd(bound, FromMillis(drift.notBefore));
    shifted.Some? && shifted.value <= now
  }

  predicate UpperBoundMet(bound: Instant, drift: ClockSkew, now: Instant) {
    var shifted := CheckedAdd(bound, FromMillis(drift.notOnOrAfter));
    shifted.Some? && now < shifted.value
  }
}
