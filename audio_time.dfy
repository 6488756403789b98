/** Conversion between seconds and host-clock ticks.

    The host clock counts integer ticks; one tick lasts numer/denom nanoseconds,
    a ratio the platform reports once and that never changes during a session.
    Seconds are modelled as `real` (IEEE rounding is not modelled). */
module AudioTime {

  const UInt64Limit: nat := 0x1_0000_0000_0000_0000
  const UInt32Limit: nat := 0x1_0000_0000
  const NanosPerSecond: real := 1_000_000_000.0

  /** The platform's timebase: a tick is `numer / denom` nanoseconds. Both fields are UInt32. */
  datatype TimebaseInfo = TimebaseInfo(numer: nat, denom: nat)

  type Timebase = tb: TimebaseInfo | 0 < tb.numer < UInt32Limit && 0 < tb.denom < UInt32Limit
    witness TimebaseInfo(1, 1)

  /** A value of the host clock, an unsigned 64-bit integer. */
  type HostTime = h: nat | h < UInt64Limit

  /** The exact (unrounded) number of ticks in `seconds`. */
  function ExactTicks(tb: Timebase, seconds: real): real
  {
    seconds * NanosPerSecond * (tb.denom as real) / (tb.numer as real)
  }

  lemma ExactTicksNonNegative(tb: Timebase, seconds: real)
    requires 0.0 <= seconds
    ensures 0.0 <= ExactTicks(tb, seconds)
  {
    var x := seconds * NanosPerSecond * (tb.denom as real);
    assert 0.0 <= x;
    assert x / (tb.numer as real) * (tb.numer as real) == x;
  }

  /** The conversion to UInt64 traps on a negative or too large value. */
  predicate Representable(tb: Timebase, seconds: real)
  {
    0.0 <= seconds && ExactTicks(tb, seconds) < UInt64Limit as real
  }

  /** Seconds to host ticks, truncated toward zero. */
  function ToHostTime(tb: Timebase, seconds: real): (r: HostTime)
    requires Representable(tb, seconds)
    ensures r as real <= ExactTicks(tb, seconds) < r as real + 1.0
  {
    ExactTicksNonNegative(tb, seconds);
    ExactTicks(tb, seconds).Floor
  }

  /** Host ticks to seconds. */
  function HostTimeToSeconds(tb: Timebase, host: nat): (r: real)
    ensures 0.0 <= r
    ensures host == 0 ==> r == 0.0
  {
    ScaledTicksNonNegative(host as real, tb.numer as real, tb.denom as real);
    (host as real) * (tb.numer as real) / (tb.denom as real) / NanosPerSecond
  }

  lemma ScaledTicksNonNegative(host: real, numer: real, denom: real)
    requires 0.0 <= host && 0.0 <= numer && 0.0 < denom
    ensures 0.0 <= host * numer / denom / NanosPerSecond
  {
    var nanos := host * numer;
    assert nanos / denom * denom == nanos;
  }

  /** Adds a duration to a host time with UInt64 wrap-around (`&+`): it never traps. */
  function AddSeconds(tb: Timebase, host: HostTime, seconds: real): (r: HostTime)
    requires Representable(tb, seconds)
    ensures host + ToHostTime(tb, seconds) < UInt64Limit ==> r == host + ToHostTime(tb, seconds)
    ensures host + ToHostTime(tb, seconds) >= UInt64Limit ==> r == host + ToHostTime(tb, seconds) - UInt64Limit
  {
    (host + ToHostTime(tb, seconds)) % UInt64Limit
  }

  /** Every delay of at most four seconds converts without trapping, whatever the timebase. */
  lemma ShortDelayRepresentable(tb: Timebase, seconds: real)
    requires 0.0 <= seconds <= 4.0
    ensures Representable(tb, seconds)
  {
    var d := tb.denom as real;
    var n := tb.numer as real;
    var a := seconds * NanosPerSecond;
    var x := a * d;
    ScaledOrder(a, 4.0 * NanosPerSecond, d, x, 4.0 * NanosPerSecond * d);
    assert x < UInt64Limit as real;
    var y := x / n;
    assert ExactTicks(tb, seconds) == y;
    assert y * n == x;
    ExactTicksNonNegative(tb, seconds);
    ScaledOrder(1.0, n, y, y, n * y);
  }

  /** Scaling by a non-negative factor keeps a weak order. */
  lemma ScaledOrder(a: real, b: real, c: real, scaledA: real, scaledB: real)
    requires a <= b && 0.0 <= c
    requires scaledA == a * c && scaledB == b * c
    ensures scaledA <= scaledB
  {
    assert scaledB - scaledA == (b - a) * c;
  }


  lemma ToHostTimeZero(tb: Timebase)
    ensures Representable(tb, 0.0) && ToHostTime(tb, 0.0) == 0
  {
  }

  /** A longer duration never converts to fewer ticks. */
  lemma ToHostTimeMonotone(tb: Timebase, s1: real, s2: real)
    requires Representable(tb, s1) && Representable(tb, s2)
    requires s1 <= s2
    ensures ToHostTime(tb, s1) <= ToHostTime(tb, s2)
  {
    var c := NanosPerSecond * (tb.denom as real) / (tb.numer as real);
    assert 0.0 < c;
    assert ExactTicks(tb, s1) == s1 * c && ExactTicks(tb, s2) == s2 * c;
    assert s1 * c <= s2 * c;
  }

  /** Seconds grow strictly with host ticks and are never negative. */
  lemma HostTimeToSecondsStrictlyIncreasing(tb: Timebase, h1: nat, h2: nat)
    requires h1 < h2
    ensures 0.0 <= HostTimeToSeconds(tb, h1) < HostTimeToSeconds(tb, h2)
  {
    var k := (tb.numer as real) / (tb.denom as real) / NanosPerSecond;
    assert 0.0 < k;
    assert HostTimeToSeconds(tb, h1) == (h1 as real) * k;
    assert HostTimeToSeconds(tb, h2) == (h2 as real) * k;
    assert (h1 as real) * k < (h2 as real) * k;
  }

  /** Scaling by a positive factor keeps a value within one scaled unit of its floor. */
  lemma ScaledFloorGap(x: real, k: real, c: real, scaledX: real, scaledK: real)
    requires k <= x < k + 1.0 && 0.0 < c
    requires scaledX == x * c && scaledK == k * c
    ensures scaledK <= scaledX && scaledX - scaledK < c
  {
    var gap := x - k;
    assert scaledX - scaledK == gap * c;
    assert 0.0 <= gap * c;
    var rest := 1.0 - gap;
    assert 0.0 < rest;
    assert 0.0 < rest * c;
    assert rest * c == c - gap * c;
  }

  /** Scaling by a positive factor keeps a strict order. */
  lemma ScaledStrictOrder(a: real, b: real, c: real, scaledA: real, scaledB: real)
    requires a < b && 0.0 < c
    requires scaledA == a * c && scaledB == b * c
    ensures scaledA < scaledB
  {
    assert scaledB - scaledA == (b - a) * c;
    assert 0.0 < (b - a) * c;
  }

  /** Seconds are host ticks times the duration of one tick. */
  lemma HostTimeToSecondsScales(tb: Timebase, host: nat)
    ensures HostTimeToSeconds(tb, host) == (host as real) * HostTimeToSeconds(tb, 1)
  {
  }

  /** Counting the exact ticks in `seconds` and multiplying by the tick duration gives `seconds` back. */
  lemma ExactTicksInverse(tb: Timebase, seconds: real)
    ensures ExactTicks(tb, seconds) * HostTimeToSeconds(tb, 1) == seconds
  {
    var n := tb.numer as real;
    var d := tb.denom as real;
    calc {
      ExactTicks(tb, seconds) * HostTimeToSeconds(tb, 1);
      seconds * NanosPerSecond * d / n * (n / d / NanosPerSecond);
      seconds;
    }
  }

  /** Converting seconds to ticks and back loses less than one tick, and never overshoots. */
  lemma RoundTripLosesLessThanOneTick(tb: Timebase, seconds: real)
    requires Representable(tb, seconds)
    ensures HostTimeToSeconds(tb, ToHostTime(tb, seconds)) <= seconds
    ensures seconds - HostTimeToSeconds(tb, ToHostTime(tb, seconds)) < HostTimeToSeconds(tb, 1)
  {
    HostTimeToSecondsScales(tb, ToHostTime(tb, seconds));
    ExactTicksInverse(tb, seconds);
    var x, k, c := ExactTicks(tb, seconds), ToHostTime(tb, seconds) as real, HostTimeToSeconds(tb, 1);
    ScaledFloorGap(x, k, c, seconds, HostTimeToSeconds(tb, ToHostTime(tb, seconds)));
  }

  /** Host-time differences are linear: seconds between `h` and `h + delta` depend on delta only. */
  lemma HostTimeToSecondsAdditive(tb: Timebase, h: nat, delta: nat)
    ensures HostTimeToSeconds(tb, h + delta) == HostTimeToSeconds(tb, h) + HostTimeToSeconds(tb, delta)
  {
    var k := (tb.numer as real) / (tb.denom as real) / NanosPerSecond;
    assert HostTimeToSeconds(tb, h + delta) == ((h + delta) as real) * k;
    assert HostTimeToSeconds(tb, h) == (h as real) * k;
    assert HostTimeToSeconds(tb, delta) == (delta as real) * k;
    assert ((h + delta) as real) * k == (h as real) * k + (delta as real) * k;
  }

  /** Without wrap-around, `AddSeconds` moves a host time forward by the requested
      duration, short by less than one tick. */
  lemma AddSecondsAdvances(tb: Timebase, host: HostTime, seconds: real)
    requires Representable(tb, seconds)
    requires host + ToHostTime(tb, seconds) < UInt64Limit
    ensures HostTimeToSeconds(tb, AddSeconds(tb, host, seconds)) - HostTimeToSeconds(tb, host) <= seconds
    ensures seconds - HostTimeToSeconds(tb, 1)
            < HostTimeToSeconds(tb, AddSeconds(tb, host, seconds)) - HostTimeToSeconds(tb, host)
  {
    HostTimeToSecondsAdditive(tb, host, ToHostTime(tb, seconds));
    RoundTripLosesLessThanOneTick(tb, seconds);
  }
}
