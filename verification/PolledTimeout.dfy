/**
  Timeouts that are polled, from `PolledTimeout.h`. The clock is a 32-bit counter that wraps; times without a wrap are
  plain naturals here, and `Clock` is what the program reads.
*/
module PolledTimeout {
  import opened Bytes
  import Division

  const ALWAYS_EXPIRED: word := 0
  const NEVER_EXPIRES: word := 0xffff_ffff

  function Clock(t: nat): word {
    t % 0x1_0000_0000
  }

  // ----- units

  /** `TimeUnit`: a clock of `ticks` per second, at most `ticksMax`, and `secondTh` user units per second. */
  datatype TimeUnit = TimeUnit(ticks: word, ticksMax: word, secondTh: nat)

  /** The CPU runs at 80 or 160 MHz. */
  type Frequency = f: nat | f == 80 || f == 160 witness 80

  const TimeMillis := TimeUnit(1000, 1000, 1000)

  function TimeFastMillis(mhz: Frequency): TimeUnit {
    TimeUnit(mhz * 1000000, 160000000, 1000)
  }

  function TimeFastMicros(mhz: Frequency): TimeUnit {
    TimeUnit(mhz * 1000000, 160000000, 1000000)
  }

  function TimeFastNanos(mhz: Frequency): TimeUnit {
    TimeUnit(mhz * 1000000, 160000000, 1000000000)
  }

  predicate Proper(u: TimeUnit) {
    0 < u.ticks <= u.ticksMax && 0 < u.secondTh
  }

  /** `computeRangeCompensation`: the user units in one tick over their fractional part, rounded, on exact numbers. */
  function Compensation(u: TimeUnit): nat
    requires Proper(u)
  {
    var r := u.secondTh % u.ticks;
    if r == 0 then 1 else (2 * u.secondTh + r) / (2 * r)
  }

  function MultiplierMax(u: TimeUnit): nat
    requires Proper(u)
  {
    u.ticksMax * Compensation(u) % 0x1_0000_0000 / u.secondTh
  }

  function Multiplier(u: TimeUnit): nat
    requires Proper(u)
  {
    u.ticks * Compensation(u) % 0x1_0000_0000 / u.secondTh
  }

  /** Units for which the conversions do not divide by zero. */
  predicate Usable(u: TimeUnit) {
    Proper(u) && Compensation(u) > 0 && Multiplier(u) > 0 && MultiplierMax(u) > 0
  }

  function TimeMax(u: TimeUnit): nat
    requires Usable(u)
  {
    (0xffff_ffff - 1) / MultiplierMax(u)
  }

  function ToTicks(u: TimeUnit, user: word): nat
    requires Usable(u)
  {
    user * Multiplier(u) % 0x1_0000_0000 / Compensation(u)
  }

  function ToUser(u: TimeUnit, ticks: word): nat
    requires Usable(u)
  {
    ticks * Compensation(u) % 0x1_0000_0000 / Multiplier(u)
  }

  lemma CoarseUnit(u: TimeUnit)
    requires Proper(u) && u.secondTh <= u.ticks
    ensures Compensation(u) == 1
  {
    Division.QuotientIs(u.secondTh, u.ticks, if u.secondTh == u.ticks then 1 else 0,
                        if u.secondTh == u.ticks then 0 else u.secondTh);
    Rounded(u.secondTh);
  }

  lemma Rounded(r: nat)
    requires r > 0
    ensures (2 * r + r) / (2 * r) == 1
  {
    Division.QuotientIs(2 * r + r, 2 * r, 1, r);
  }

  lemma FineUnit(mhz: Frequency)
    ensures Compensation(TimeFastNanos(mhz)) == 25
  {
    if mhz == 80 {
      Division.QuotientIs(1000000000, 80000000, 12, 40000000);
    } else {
      Division.QuotientIs(1000000000, 160000000, 6, 40000000);
    }
  }

  /** The multipliers of the four units in use. */
  lemma Units(mhz: Frequency)
    ensures var u := TimeMillis; Usable(u) && Compensation(u) == 1 && Multiplier(u) == MultiplierMax(u) == 1
    ensures var u := TimeFastMillis(mhz);
            Usable(u) && Compensation(u) == 1 && Multiplier(u) == mhz * 1000 && MultiplierMax(u) == 160000
    ensures var u := TimeFastMicros(mhz);
            Usable(u) && Compensation(u) == 1 && Multiplier(u) == mhz && MultiplierMax(u) == 160
    ensures var u := TimeFastNanos(mhz);
            Usable(u) && Compensation(u) == 25 && Multiplier(u) == mhz / 40 && MultiplierMax(u) == 4
  {
    hide Compensation;
    CoarseUnit(TimeMillis);
    CoarseUnit(TimeFastMillis(mhz));
    CoarseUnit(TimeFastMicros(mhz));
    FineUnit(mhz);
  }

  lemma TimesAtMost(a: nat, b: nat, c: nat)
    requires b > 0 && a <= c / b
    ensures a * b <= c
  {
    var q := c / b;
    assert q * b <= c;
    assert (q - a) * b >= 0;
  }

  lemma NoWrap(x: nat)
    requires x < 0x1_0000_0000
    ensures x % 0x1_0000_0000 == x
  {
  }

  lemma TimesMonotone(a: nat, b: nat, c: nat)
    requires b <= c
    ensures a * b <= a * c
  {
  }

  /** Up to `timeMax()` the conversion does not wrap. */
  lemma ToTicksExact(u: TimeUnit, user: word)
    requires Usable(u) && Multiplier(u) <= MultiplierMax(u) && user <= TimeMax(u)
    ensures user * Multiplier(u) < NEVER_EXPIRES
    ensures ToTicks(u, user) == user * Multiplier(u) / Compensation(u)
  {
    hide Multiplier;
    hide MultiplierMax;
    hide Compensation;
    var m, most := Multiplier(u), MultiplierMax(u);
    TimesAtMost(user, most, 0xffff_fffe);
    TimesMonotone(user, m, most);
    NoWrap(user * m);
  }

  lemma DivideBack(q: nat, m: nat)
    requires m > 0
    ensures q * m / m == q
  {
    Division.QuotientIs(q * m, m, q, 0);
  }

  /** Up to `timeMax()`, whole milliseconds and microseconds survive the way to ticks and back. */
  lemma TimeoutRoundTrip(u: TimeUnit, user: word)
    requires Usable(u) && Compensation(u) == 1 && Multiplier(u) <= MultiplierMax(u) && user <= TimeMax(u)
    ensures ToTicks(u, user) < 0x1_0000_0000 && ToUser(u, ToTicks(u, user)) == user
  {
    hide Multiplier;
    hide MultiplierMax;
    hide Compensation;
    ToTicksExact(u, user);
    DivideBack(user, Multiplier(u));
  }

  /** Nanoseconds are rounded down to what whole ticks can say. */
  lemma NanosRoundDown(mhz: Frequency, user: word)
    ensures Usable(TimeFastNanos(mhz))
    ensures var u := TimeFastNanos(mhz);
            user <= TimeMax(u) ==> ToTicks(u, user) < 0x1_0000_0000 && user - 13 <= ToUser(u, ToTicks(u, user)) <= user
  {
    Units(mhz);
    var u := TimeFastNanos(mhz);
    if user <= TimeMax(u) {
      ToTicksExact(u, user);
      hide Multiplier;
      hide MultiplierMax;
      hide Compensation;
      if mhz == 80 {
        RoundDown(user, 2);
      } else {
        RoundDown(user, 4);
      }
    }
  }

  lemma RoundDown(user: nat, m: nat)
    requires m in {2, 4} && user * m < NEVER_EXPIRES
    ensures user - 13 <= user * m / 25 * 25 % 0x1_0000_0000 / m <= user
  {
    var x := user * m / 25 * 25;
    assert x <= user * m < x + 25;
    assert x % 0x1_0000_0000 == x;
  }

  // ----- polling

  /** The fields of `timeoutTemplate`. */
  datatype Timer = Timer(timeout: word, start: word, never: bool)
  datatype Poll = Poll(expired: bool, timer: Timer)

  function Elapsed(timer: Timer, now: word): word {
    (now - timer.start) % 0x1_0000_0000
  }

  predicate CanWait(timer: Timer) {
    timer.timeout != ALWAYS_EXPIRED
  }

  predicate CheckExpired(timer: Timer, now: word) {
    !timer.never && Elapsed(timer, now) >= timer.timeout
  }

  function Periods(elapsed: nat, period: nat): nat
    requires period > 0
  {
    elapsed / period
  }

  /** The whole periods in a time. */
  function Whole(elapsed: nat, period: nat): (w: nat)
    requires period > 0
    ensures w <= elapsed < w + period
  {
    var n := elapsed / period;
    assert n * period + elapsed % period == elapsed;
    n * period
  }

  /** `expiredRetrigger`. */
  function Polled(timer: Timer, now: word): Poll {
    if !CanWait(timer) then Poll(true, timer) else
    if !CheckExpired(timer, now) then Poll(false, timer) else
    Poll(true, timer.(start := Clock(timer.start + Whole(Elapsed(timer, now), timer.timeout))))
  }

  lemma ResetWaits(unit: TimeUnit, user: word, now: word)
    requires Usable(unit)
    ensures var timer := Timer(ToTicks(unit, user) % 0x1_0000_0000, now, user > TimeMax(unit));
            && (user <= TimeMax(unit) && Multiplier(unit) <= MultiplierMax(unit) ==>
                  && timer.timeout == user * Multiplier(unit) / Compensation(unit)
                  && forall t: word :: Polled(timer, t).expired <==> timer.timeout <= (t - now) % 0x1_0000_0000)
            && (user > TimeMax(unit) ==> forall t: word :: Polled(timer, t).expired <==> timer.timeout == 0)
  {
    hide Multiplier;
    hide MultiplierMax;
    hide Compensation;
    hide Whole;
    if user <= TimeMax(unit) && Multiplier(unit) <= MultiplierMax(unit) {
      ToTicksExact(unit, user);
      SmallerQuotient(user * Multiplier(unit), Compensation(unit));
      hide TimeMax;
      hide ToTicks;
      NoWrap(ToTicks(unit, user));
    }
  }

  lemma SmallerQuotient(x: nat, d: nat)
    requires d > 0
    ensures x / d <= x
  {
    assert x == x / d * d + x % d;
    Division.AtLeastOne(d, x / d);
  }

  class Timeout {
    const unit: TimeUnit
    var timeout: word
    var start: word
    var never: bool

    ghost function Value(): Timer
      reads this
    {
      Timer(timeout, start, never)
    }

    constructor (unit: TimeUnit, userTimeout: word, now: word)
      requires Usable(unit)
      ensures this.unit == unit &&
              Value() == Timer(ToTicks(unit, userTimeout) % 0x1_0000_0000, now, userTimeout > TimeMax(unit))
    {
      this.unit := unit;
      start := now;
      timeout := ToTicks(unit, userTimeout) % 0x1_0000_0000;
      never := userTimeout > TimeMax(unit);
    }

    /**
      `reset` with a new timeout. Up to the maximum the timer waits exactly that long; beyond it a poll never answers
      true, or always if the ticks wrap to 0.
    */
    method Reset(userTimeout: word, now: word)
      requires Usable(unit)
      modifies this
      ensures Value() == Timer(ToTicks(unit, userTimeout) % 0x1_0000_0000, now, userTimeout > TimeMax(unit))
      ensures userTimeout <= TimeMax(unit) && Multiplier(unit) <= MultiplierMax(unit) ==>
                && timeout == userTimeout * Multiplier(unit) / Compensation(unit)
                && forall t: word :: Polled(Value(), t).expired <==> timeout <= (t - now) % 0x1_0000_0000
      ensures userTimeout > TimeMax(unit) ==>
                forall t: word :: Polled(Value(), t).expired <==> ToTicks(unit, userTimeout) % 0x1_0000_0000 == 0
    {
      ResetWaits(unit, userTimeout, now);
      start := now;
      timeout := ToTicks(unit, userTimeout) % 0x1_0000_0000;
      never := userTimeout > TimeMax(unit);
    }

    /** `resetAndSetExpired`: the next poll answers true. */
    method ResetAndSetExpired(now: word)
      modifies `start
      ensures Elapsed(Value(), now) == timeout && timeout == old(timeout) && never == old(never)
      ensures timeout == ALWAYS_EXPIRED || !never ==> Polled(Value(), now).expired
    {
      hide Whole;
      start := now;
      start := (start - timeout) % 0x1_0000_0000;
    }

    /** `expiredRetrigger`. */
    method ExpiredRetrigger(now: word) returns (expired: bool)
      modifies `start
      ensures Poll(expired, Value()) == Polled(old(Value()), now)
    {
      if timeout == ALWAYS_EXPIRED {
        return true;
      }
      if !never && (now - start) % 0x1_0000_0000 >= timeout {
        var elapsed := (now - start) % 0x1_0000_0000;
        var n := elapsed / timeout;
        NoWrap(Whole(elapsed, timeout));
        start := (start + n * timeout % 0x1_0000_0000) % 0x1_0000_0000;
        return true;
      }
      return false;
    }
  }

  // ----- no drift

  /** The last multiple of the period from `origin`, at time `t`. */
  function Boundary(origin: nat, period: nat, t: nat): (b: nat)
    requires period > 0 && origin <= t
    ensures origin <= b <= t < b + period
  {
    origin + Whole(t - origin, period)
  }

  lemma WrapDifference(a: nat, b: nat)
    requires b <= a < b + 0x1_0000_0000
    ensures (Clock(a) - Clock(b)) % 0x1_0000_0000 == a - b
  {
    assert Clock(a) - Clock(b) == a - b - 0x1_0000_0000 * (a / 0x1_0000_0000 - b / 0x1_0000_0000);
  }

  lemma WrapSum(a: nat, b: nat)
    ensures Clock(Clock(a) + b) == Clock(a + b)
  {
  }

  lemma WholeSum(period: nat, a: nat, b: nat)
    requires period > 0 && a <= b
    ensures var rest := b - Whole(a, period);
            && Whole(b, period) == Whole(a, period) + Whole(rest, period)
            && Periods(b, period) == Periods(a, period) + Periods(rest, period)
  {
    var k := a / period;
    var rest := b - k * period;
    var n, r := rest / period, rest % period;
    assert rest == n * period + r;
    assert (k + n) * period == k * period + n * period;
    Division.QuotientIs(b, period, k + n, r);
  }

  lemma NonePassed(period: nat, rest: nat)
    requires period > 0
    ensures Periods(rest, period) > 0 <==> rest >= period
    ensures rest < period ==> Whole(rest, period) == 0
  {
    if rest < period {
      Division.QuotientIs(rest, period, 0, rest);
    } else {
      assert rest == rest / period * period + rest % period;
    }
  }

  /** A poll at time `t`, after one at `before`. */
  lemma PollAt(timer: Timer, origin: nat, before: nat, t: nat)
    requires timer.timeout > 0 && !timer.never && origin <= before <= t
    requires timer.start == Clock(Boundary(origin, timer.timeout, before))
    requires t - Boundary(origin, timer.timeout, before) < 0x1_0000_0000
    ensures Polled(timer, Clock(t)).timer == timer.(start := Clock(Boundary(origin, timer.timeout, t)))
    ensures Polled(timer, Clock(t)).expired <==>
              Periods(t - origin, timer.timeout) > Periods(before - origin, timer.timeout)
  {
    hide Whole;
    hide Periods;
    hide Clock;
    var p := timer.timeout;
    var b := Boundary(origin, p, before);
    WrapDifference(t, b);
    WholeSum(p, before - origin, t - origin);
    NonePassed(p, t - b);
    WrapSum(b, Whole(t - b, p));
  }

  /**
    Without a bound on the time between polls, the answer is right unless the clock has wrapped to less than a period.
  */
  lemma AnswerRightExactly(timer: Timer, origin: nat, before: nat, t: nat)
    requires timer.timeout > 0 && !timer.never && origin <= before <= t
    requires timer.start == Clock(Boundary(origin, timer.timeout, before))
    ensures var p, late := timer.timeout, t - Boundary(origin, timer.timeout, before);
            (Polled(timer, Clock(t)).expired <==> Periods(t - origin, p) > Periods(before - origin, p))
            <==> (late < 0x1_0000_0000 || late % 0x1_0000_0000 >= p)
  {
    hide Whole;
    hide Periods;
    hide Clock;
    var p := timer.timeout;
    var b := Boundary(origin, p, before);
    WholeSum(p, before - origin, t - origin);
    NonePassed(p, t - b);
    WrapAnyDifference(t, b);
  }

  lemma WrapAnyDifference(a: nat, b: nat)
    requires b <= a
    ensures (Clock(a) - Clock(b)) % 0x1_0000_0000 == (a - b) % 0x1_0000_0000
  {
    assert Clock(a) - Clock(b) == a - b - 0x1_0000_0000 * (a / 0x1_0000_0000 - b / 0x1_0000_0000);
  }

  function Before(origin: nat, times: seq<nat>): nat {
    if times == [] then origin else times[|times| - 1]
  }

  /** The timer after polls at `times`. */
  function Polls(timer: Timer, times: seq<nat>): Timer {
    if times == [] then timer else Polled(Polls(timer, times[..|times| - 1]), Clock(times[|times| - 1])).timer
  }

  /** Polls in order, each less than 2^32 ticks behind the start that is stored then. */
  ghost predicate Regular(origin: nat, period: nat, times: seq<nat>)
    requires period > 0
  {
    forall i :: 0 <= i < |times| ==>
      var before := Before(origin, times[..i]);
      origin <= before <= times[i] && times[i] - Boundary(origin, period, before) < 0x1_0000_0000
  }

  lemma RegularPrefix(origin: nat, period: nat, times: seq<nat>, t: nat)
    requires period > 0 && Regular(origin, period, times + [t])
    ensures Regular(origin, period, times)
    ensures var before := Before(origin, times);
            origin <= before <= t && t - Boundary(origin, period, before) < 0x1_0000_0000
  {
    hide Boundary;
    var all := times + [t];
    assert all[..|times|] == times && all[|times|] == t;
    forall i | 0 <= i < |times|
      ensures var before := Before(origin, times[..i]);
              origin <= before <= times[i] && times[i] - Boundary(origin, period, before) < 0x1_0000_0000
    {
      assert all[..i] == times[..i] && all[i] == times[i];
    }
  }

  /**
    A periodic timeout never drifts: after any polls the start is the first start plus as many whole periods as have
    passed.
  */
  lemma {:induction false} NeverDrifts(period: word, origin: nat, times: seq<nat>)
    requires period > 0 && Regular(origin, period, times)
    ensures origin <= Before(origin, times)
    ensures Polls(Timer(period, Clock(origin), false), times)
         == Timer(period, Clock(Boundary(origin, period, Before(origin, times))), false)
  {
    hide Whole;
    hide Polled;
    if times == [] {
      NonePassed(period, 0);
    } else {
      var n := |times| - 1;
      var rest := times[..n];
      assert forall i :: 0 <= i < n ==> rest[..i] == times[..i];
      NeverDrifts(period, origin, rest);
      assert times[n] - Boundary(origin, period, Before(origin, rest)) < 0x1_0000_0000;
      PollAt(Polls(Timer(period, Clock(origin), false), rest), origin, Before(origin, rest), times[n]);
    }
  }

  /** And it answers true exactly when a period ended since the poll before. */
  lemma AnswersAtBoundaries(period: word, origin: nat, times: seq<nat>, t: nat)
    requires period > 0 && Regular(origin, period, times + [t])
    ensures origin <= Before(origin, times) <= t
    ensures var timer := Polls(Timer(period, Clock(origin), false), times);
            Polled(timer, Clock(t)).expired <==>
              Periods(t - origin, period) > Periods(Before(origin, times) - origin, period)
  {
    hide *;
    RegularPrefix(origin, period, times, t);
    NeverDrifts(period, origin, times);
    var timer := Timer(period, Clock(Boundary(origin, period, Before(origin, times))), false);
    PollAt(timer, origin, Before(origin, times), t);
  }
}
