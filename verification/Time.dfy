/** Instants on one civil time line that is already normalised to a single
    zone, counted in microseconds from a midnight.  The calendar components
    that Python's datetime exposes (minute, second, microsecond) are derived
    by floor division, which is what Dafny's `/` and `%` do for a positive
    divisor. */
module Time {

  type Instant = int

  const SECOND: int := 1_000_000
  const MINUTE: int := 60 * SECOND
  const TEN_MINUTES: int := 10 * MINUTE
  const DAY: int := 24 * 60 * MINUTE

  /** `time.microsecond` */
  function Microsecond(t: Instant): int { t % SECOND }

  /** `time.second` */
  function Second(t: Instant): int { (t / SECOND) % 60 }

  /** `time.minute` */
  function Minute(t: Instant): int { (t / SECOND / 60) % 60 }

  /** Quotient and remainder are determined by the decomposition they satisfy. */
  lemma DivModUnique(x: int, d: int, q: int, r: int)
    requires 0 < d && 0 <= r < d && x == q * d + r
    ensures x / d == q && x % d == r
  {
    var q', r' := x / d, x % d;
    assert x == q' * d + r';
    if q' < q {
      assert (q - q') * d >= d by { MulAtLeast(q - q', d); }
      assert false;
    } else if q < q' {
      assert (q' - q) * d >= d by { MulAtLeast(q' - q, d); }
      assert false;
    }
  }

  lemma MulAtLeast(a: int, d: int)
    requires a >= 1 && d > 0
    ensures a * d >= d
  {
  }

  /** The amount `get_time_rounded` subtracts is exactly the distance to the
      previous ten-minute mark. */
  lemma OffsetIsRemainder(t: Instant)
    ensures (Minute(t) % 10) * MINUTE + Second(t) * SECOND + Microsecond(t) == t % TEN_MINUTES
  {
    var secs := t / SECOND;
    var mins := secs / 60;
    assert t == secs * SECOND + Microsecond(t);
    assert secs == mins * 60 + Second(t);
    // minute-of-hour modulo 10 is the minute count modulo 10, because 10 divides 60
    var hours := mins / 60;
    assert mins == hours * 60 + Minute(t);
    var tens := Minute(t) / 10;
    assert Minute(t) == tens * 10 + Minute(t) % 10;
    assert mins == (hours * 6 + tens) * 10 + Minute(t) % 10;
    DivModUnique(mins, 10, hours * 6 + tens, Minute(t) % 10);
    var rest := (Minute(t) % 10) * MINUTE + Second(t) * SECOND + Microsecond(t);
    assert t == mins * MINUTE + Second(t) * SECOND + Microsecond(t);
    assert t == (mins / 10) * TEN_MINUTES + rest;
    DivModUnique(t, TEN_MINUTES, mins / 10, rest);
  }

  /** `Database.get_time_rounded`: the instant at which the last ten-minute
      mark passed.  It subtracts the minute-of-hour modulo 10, the seconds and
      the microseconds, so the result lies on the ten-minute grid, is not
      later than `t` and is less than ten minutes earlier. */
  function RoundDown(t: Instant): (r: Instant)
    ensures r <= t < r + TEN_MINUTES
    ensures r % TEN_MINUTES == 0
    ensures Minute(r) % 10 == 0 && Second(r) == 0 && Microsecond(r) == 0
  {
    OffsetIsRemainder(t);
    var r := t - ((Minute(t) % 10) * MINUTE + Second(t) * SECOND + Microsecond(t));
    assert r == (t / TEN_MINUTES) * TEN_MINUTES;
    GridComponents(t / TEN_MINUTES);
    r
  }

  /** A grid instant has a minute divisible by ten and no seconds or microseconds. */
  lemma GridComponents(q: int)
    ensures (q * TEN_MINUTES) % TEN_MINUTES == 0
    ensures Minute(q * TEN_MINUTES) % 10 == 0
    ensures Second(q * TEN_MINUTES) == 0 && Microsecond(q * TEN_MINUTES) == 0
  {
    var g := q * TEN_MINUTES;
    DivModUnique(g, TEN_MINUTES, q, 0);
    DivModUnique(g, SECOND, q * 600, 0);
    DivModUnique(q * 600, 60, q * 10, 0);
    var h := (q * 10) / 60;
    assert q * 10 == h * 60 + Minute(g);
    var m := Minute(g);
    assert m == (q - h * 6) * 10;
    DivModUnique(m, 10, q - h * 6, 0);
  }

  /** The grid point below `t` is the unique multiple of ten minutes within
      the ten minutes ending at `t`; no repeated rounding can drift from it. */
  lemma {:induction false} RoundDownUnique(t: Instant, g: Instant)
    requires g % TEN_MINUTES == 0 && g <= t < g + TEN_MINUTES
    ensures RoundDown(t) == g
  {
    var r := RoundDown(t);
    DivModUnique(g, TEN_MINUTES, g / TEN_MINUTES, 0);
    DivModUnique(r, TEN_MINUTES, r / TEN_MINUTES, 0);
    var a, b := g / TEN_MINUTES, r / TEN_MINUTES;
    assert g == a * TEN_MINUTES && r == b * TEN_MINUTES;
    assert -TEN_MINUTES < (a - b) * TEN_MINUTES < TEN_MINUTES;
  }

  /** Rounding is idempotent. */
  lemma RoundDownIdempotent(t: Instant)
    ensures RoundDown(RoundDown(t)) == RoundDown(t)
  {
    var r := RoundDown(t);
    RoundDownUnique(r, r);
  }

  /** Moving an instant by whole ten-minute steps moves its grid point by
      the same amount, so rounding `now + 7 days` lands exactly seven days
      after rounding `now`. */
  lemma RoundDownShift(t: Instant, d: int)
    requires d % TEN_MINUTES == 0
    ensures RoundDown(t + d) == RoundDown(t) + d
  {
    var r := RoundDown(t);
    DivModUnique(r, TEN_MINUTES, r / TEN_MINUTES, 0);
    DivModUnique(d, TEN_MINUTES, d / TEN_MINUTES, 0);
    var g := r + d;
    assert g == (r / TEN_MINUTES + d / TEN_MINUTES) * TEN_MINUTES;
    DivModUnique(g, TEN_MINUTES, r / TEN_MINUTES + d / TEN_MINUTES, 0);
    RoundDownUnique(t + d, g);
  }

  /** Twelve o'clock, seven minutes, thirty-three seconds on any day rounds
      down to twelve o'clock sharp. */
  lemma RoundDownExample(day: int)
    ensures RoundDown(day * DAY + 12 * 60 * MINUTE + 7 * MINUTE + 33 * SECOND)
         == day * DAY + 12 * 60 * MINUTE
  {
    var noon := day * DAY + 12 * 60 * MINUTE;
    assert noon == (day * 144 + 72) * TEN_MINUTES;
    DivModUnique(noon, TEN_MINUTES, day * 144 + 72, 0);
    RoundDownUnique(noon + 7 * MINUTE + 33 * SECOND, noon);
  }
}
