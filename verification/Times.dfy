// Time points and their conversion to and from milliseconds.

module Times {
  import opened Wire

  const NANOS_PER_MILLI: int := 1_000_000

  // std::chrono::system_clock::time_point counts nanoseconds in a signed 64-bit integer.
  type TimePoint = I64

  /** Signed 64-bit arithmetic, wrapping around. */
  function Wrap(n: int): (r: I64)
    ensures (n - r) % TWO_TO_64 == 0
    ensures -TWO_TO_63 <= n < TWO_TO_63 ==> r == n
  {
    ToSigned(n % TWO_TO_64)
  }

  /** duration_cast: the count in the new unit, of which `num` make up `den` old ones, truncated toward
      zero. */
  function DurationCast(count: I64, num: nat, den: nat): I64
    requires den > 0
  {
    var scaled := count * num;
    Wrap(if scaled >= 0 then scaled / den else -(-scaled / den))
  }

  /** time_point{duration<int64_t, milli>{ms}}: how the server and the client build a time point. */
  function FromMillis(ms: I64): TimePoint {
    DurationCast(ms, NANOS_PER_MILLI, 1)
  }

  /** The one cast of the count queries and of the client. */
  function ToMillis(t: TimePoint): (ms: I64)
    ensures t >= 0 ==> ms * NANOS_PER_MILLI <= t < (ms + 1) * NANOS_PER_MILLI
    ensures t <= 0 ==> (ms - 1) * NANOS_PER_MILLI < t <= ms * NANOS_PER_MILLI
  {
    DurationCast(t, 1, NANOS_PER_MILLI)
  }

  /** The two casts of the fetch queries: time_point_cast, and duration_cast of what it gives. */
  function ToMillisTwice(t: TimePoint): I64 {
    DurationCast(DurationCast(t, 1, NANOS_PER_MILLI), 1, 1)
  }

  /** Fetch and count queries get the same bounds. */
  lemma TwoCastsAreOne(t: TimePoint)
    ensures ToMillisTwice(t) == ToMillis(t)
  {
  }

  // The farthest millisecond from the epoch that a time point can express.
  const FARTHEST_MILLI: int := 0x7FFF_FFFF_FFFF_FFFF / 1_000_000

  /** A millisecond count survives being made a time point exactly when it is representable. */
  lemma MillisSurvive(ms: I64)
    ensures ToMillis(FromMillis(ms)) == ms <==> -FARTHEST_MILLI <= ms <= FARTHEST_MILLI
  {
    if -FARTHEST_MILLI <= ms <= FARTHEST_MILLI {
      assert FromMillis(ms) == ms * NANOS_PER_MILLI;
    } else {
      var t := FromMillis(ms);
      assert -FARTHEST_MILLI <= ToMillis(t) <= FARTHEST_MILLI;
    }
  }

  /** A bound of a range request: from the client's time point through the wire to the bound that
      the server puts in its query. */
  function BoundOnServer(t: TimePoint): TimePoint {
    FromMillis(ToSigned(ToUnsigned(ToMillis(t))))
  }

  /** The server queries the same millisecond that the client asked for, also before the epoch. */
  lemma BoundSurvivesTrip(t: TimePoint)
    ensures ToMillis(BoundOnServer(t)) == ToMillisTwice(BoundOnServer(t)) == ToMillis(t)
    ensures t % NANOS_PER_MILLI == 0 ==> BoundOnServer(t) == t
  {
    MillisSurvive(ToMillis(t));
    assert -FARTHEST_MILLI <= ToMillis(t) <= FARTHEST_MILLI;
  }
}
