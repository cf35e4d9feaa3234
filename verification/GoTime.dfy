/** Go's time.Time and time.Duration. An instant is its exact number of nanoseconds
  * since the zero Time (January 1 of year 1, UTC); durations and Unix nanosecond
  * counts are int64 and wrap. Locations and monotonic readings are not modelled. */
module GoTime {
  import opened GoInt

  type Time = int
  type Duration = int64

  const ZERO_TIME: Time := 0
  const MILLISECOND: int := 1_000_000

  // January 1, 1970 is 62135596800 seconds after the zero Time.
  const UNIX_EPOCH: Time := 62_135_596_800_000_000_000

  function Add(t: Time, d: Duration): Time {
    t + d
  }

  /** Time.Sub: the wrapped difference when adding it back reaches `t`, else saturation. */
  function Sub(t: Time, u: Time): (d: Duration)
    ensures d == if t - u < MIN64 then MIN64 else if t - u > MAX64 then MAX64 else t - u
  {
    var d := Wrap64(t - u);
    if Add(u, d) == t then d
    else if t < u then MIN64
    else MAX64
  }

  predicate IsZero(t: Time) {
    t == ZERO_TIME
  }

  /** The exact count that UnixNano approximates. */
  function ExactUnixNano(t: Time): int {
    t - UNIX_EPOCH
  }

  function UnixNano(t: Time): int64 {
    Wrap64(ExactUnixNano(t))
  }

  function UnixNanoOrZero(t: Time): int64 {
    if IsZero(t) then 0 else UnixNano(t)
  }

  function TimeFromUnixNano(value: int64): Time {
    if value == 0 then ZERO_TIME else UNIX_EPOCH + value
  }

  /** Reading a stored count back gives the instant exactly when it is the zero Time, or
    * a non-epoch instant whose count fits int64. */
  lemma TimeRoundTrip(t: Time)
    ensures TimeFromUnixNano(UnixNanoOrZero(t)) == t
       <==> IsZero(t) || (ExactUnixNano(t) != 0 && Fits64(ExactUnixNano(t)))
  {
  }

  /** No int64 count is lost by the conversion to an instant. */
  lemma CountRoundTrip(value: int64)
    ensures UnixNanoOrZero(TimeFromUnixNano(value)) == value
  {
  }

  // 1969 years with 477 leap days among them lie between the zero Time and the epoch.
  lemma EpochIsNineteenSeventy()
    ensures UNIX_EPOCH == (1969 * 365 + 477) * 86_400 * 1_000_000_000
  {
  }
}
