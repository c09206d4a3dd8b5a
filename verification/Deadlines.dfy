/**
  Points in time (amqp_time.c): nanoseconds of a monotonic clock in a 64-bit word, the largest value
  standing for "never". A clock reading of 0 means that the clock could not be read.
 */
module Deadlines {
  import opened Wire

  const NS_PER_S := 1_000_000_000
  const NS_PER_MS := 1_000_000
  const NS_PER_US := 1_000
  const UINT64 := 0x1_0000_0000_0000_0000
  const INFINITE: UInt64 := 0xFFFF_FFFF_FFFF_FFFF
  const INT31 := 0x8000_0000
  const STATUS_TIMEOUT := -0x0D
  const STATUS_TIMER_FAILURE := -0x0E

  datatype Moment = At(point: UInt64) | NoMoment(status: Status)

  /** `now + delta` in 64 bits, with the overflow test of the source. */
  function Later(now: UInt64, delta: UInt64): Moment
  {
    if now == 0 then NoMoment(TimerFailure)
    else
      var point := (now + delta) % UINT64;
      if now > point || delta > point then NoMoment(InvalidParameter) else At(point)
  }

  /** `amqp_time_s_from_now` for an `int` number of seconds. */
  function SecondsFromNow(now: UInt64, seconds: int): Moment
  {
    if seconds <= 0 then At(INFINITE) else Later(now, seconds * NS_PER_S % UINT64)
  }

  datatype Timeval = Timeval(sec: int, usec: int)

  function Nanoseconds(tv: Timeval): int
  {
    tv.sec * NS_PER_S + tv.usec * NS_PER_US
  }

  /** `amqp_time_from_now`: the product with the seconds is taken in 64 bits and not checked. */
  function FromNow(now: UInt64, timeout: Option<Timeval>): Moment
  {
    if timeout.None? then At(INFINITE)
    else if timeout.value.sec < 0 || timeout.value.usec < 0 then NoMoment(InvalidParameter)
    else Later(now, Nanoseconds(timeout.value) % UINT64)
  }

  /** The conversion of a 64-bit value to `int`. */
  function ToInt32(x: nat): (r: int)
    ensures -INT31 <= r < INT31
    ensures x < INT31 ==> r == x
  {
    var low := x % 0x1_0000_0000;
    if low < INT31 then low else low - 0x1_0000_0000
  }

  /** `amqp_time_ms_until`: -1 for "never", or the status code of a clock failure. */
  function MsUntil(t: UInt64, now: UInt64): int
  {
    if t == INFINITE then -1
    else if t == 0 then 0
    else if now == 0 then STATUS_TIMER_FAILURE
    else if now >= t then 0
    else ToInt32((t - now) / NS_PER_MS)
  }

  /** `amqp_time_has_past` */
  function HasPast(t: UInt64, now: UInt64): Status
  {
    if t == INFINITE then OK else if now == 0 then TimerFailure else if now > t then Timeout else OK
  }

  /** `amqp_time_first` */
  function First(l: UInt64, r: UInt64): (t: UInt64)
    ensures t <= l && t <= r && (t == l || t == r)
  {
    if l < r then l else r
  }

  /** Less than 2^31 milliseconds from now, or never. */
  predicate Near(t: UInt64, now: nat)
  {
    t == INFINITE || t < now + INT31 * NS_PER_MS
  }

  lemma LaterIsExact(now: UInt64, delta: UInt64)
    requires now > 0
    ensures Later(now, delta) == if now + delta < UINT64 then At(now + delta) else NoMoment(InvalidParameter)
  {
    if now + delta >= UINT64 {
      assert (now + delta) % UINT64 == now + delta - UINT64;
    }
  }

  /** For the heartbeat intervals of the protocol, and a clock in its first 292 years, there is no overflow. */
  lemma SecondsFromNowIsExact(now: UInt64, seconds: int)
    requires 0 < now < 0x8000_0000_0000_0000 && 0 < seconds < INT31
    ensures SecondsFromNow(now, seconds) == At(now + seconds * NS_PER_S) && now + seconds * NS_PER_S < INFINITE
  {
    LaterIsExact(now, seconds * NS_PER_S);
  }

  /**
    A timeout is either taken exactly or refused as too long, except that a timeout of 2^64 nanoseconds
    or more may be taken for a shorter one: exactly when its remainder modulo 2^64 still fits.
   */
  lemma FromNowIsExact(now: UInt64, tv: Timeval)
    requires now > 0 && tv.sec >= 0 && tv.usec >= 0
    ensures var d := Nanoseconds(tv);
            && (FromNow(now, Some(tv)) == NoMoment(InvalidParameter) <==> now + d % UINT64 >= UINT64)
            && (FromNow(now, Some(tv)).At? ==> (FromNow(now, Some(tv)).point == now + d <==> d < UINT64))
  {
    LaterIsExact(now, Nanoseconds(tv) % UINT64);
  }

  /** The units: seconds and microseconds are counted in nanoseconds, and the wait of `poll` in milliseconds. */
  lemma Units(now: UInt64, seconds: nat, micros: nat, t: UInt64)
    requires 0 < now < t < INFINITE && t - now < 0x7FFF_FFFF * 1_000_000
    ensures 0 < seconds && now + seconds * 1_000_000_000 < 0x1_0000_0000_0000_0000 ==>
              SecondsFromNow(now, seconds) == At(now + seconds * 1_000_000_000)
    ensures var d := seconds * 1_000_000_000 + micros * 1_000;
            now + d < 0x1_0000_0000_0000_0000 ==> FromNow(now, Some(Timeval(seconds, micros))) == At(now + d)
    ensures MsUntil(t, now) == (t - now) / 1_000_000
  {
    LaterIsExact(now, seconds * NS_PER_S % UINT64);
    LaterIsExact(now, Nanoseconds(Timeval(seconds, micros)) % UINT64);
  }

  /** A timeout of 585 years, taken a second after boot, ends 0.3 seconds later. */
  lemma LongTimeoutIsShort()
    ensures FromNow(NS_PER_S, Some(Timeval(18_446_744_074, 0))) == At(NS_PER_S + 290_448_384)
  {
  }

  /** The wait handed to `poll`: rounded down, so it ends at the deadline or less than a millisecond before. */
  lemma MsUntilIsExact(t: UInt64, now: UInt64)
    requires 0 < now < t && t != INFINITE
    ensures var ms := MsUntil(t, now);
            Near(t, now) <==> ms >= 0 && now + ms * NS_PER_MS <= t < now + (ms + 1) * NS_PER_MS
  {
    var d := t - now;
    var q := d / NS_PER_MS;
    assert q * NS_PER_MS <= d < (q + 1) * NS_PER_MS;
    if q < INT31 {
      assert MsUntil(t, now) == q;
    } else {
      assert MsUntil(t, now) < INT31 <= q;
      var ms := MsUntil(t, now);
      assert (ms + 1) * NS_PER_MS <= q * NS_PER_MS;
    }
  }

  /** The millisecond count wraps round: `poll` waits for ever on a deadline 50 days away and is not reached for one 25 days away. */
  lemma FarDeadlineWraps()
    ensures MsUntil(1 + 4_294_967_295 * NS_PER_MS, 1) == -1
    ensures MsUntil(1 + 25 * 86_400 * NS_PER_S, 1) == -2_134_967_296
  {
  }
}
