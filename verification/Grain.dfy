/** How often recurrent functions need a chance to run: `compute_scheduled_recurrent_grain` of `Schedule.cpp`. */
module Grain {
  import opened Bytes
  import opened PolledTimeout
  import opened Recurrent
  import opened Chain

  function Times(k: nat, d: nat): nat {
    k * d
  }

  ghost predicate Divides(d: nat, n: nat) {
    exists k: nat :: Times(k, d) == n
  }

  /** `std::gcd`. */
  function Gcd(a: nat, b: nat): nat
    decreases b
  {
    if b == 0 then a else Gcd(b, a % b)
  }

  lemma TimesSum(q: nat, j: nat, k: nat, d: nat)
    ensures Times(q * k + j, d) == q * Times(k, d) + Times(j, d)
  {
    assert q * k * d == q * (k * d);
    assert (q * k + j) * d == q * k * d + j * d;
  }

  lemma DividesSum(d: nat, a: nat, b: nat, q: nat)
    requires Divides(d, a) && Divides(d, b)
    ensures Divides(d, q * b + a)
  {
    var j: nat :| Times(j, d) == a;
    var k: nat :| Times(k, d) == b;
    TimesSum(q, j, k, d);
  }

  lemma DividesRest(d: nat, a: nat, b: nat, q: nat)
    requires Divides(d, q * b + a) && Divides(d, b)
    ensures Divides(d, a)
  {
    var j: nat :| Times(j, d) == q * b + a;
    var k: nat :| Times(k, d) == b;
    if j < q * k {
      TimesSum(1, q * k - j, j, d);
      TimesSum(q, 0, k, d);
      hide Times;
      assert 1 * j + (q * k - j) == q * k + 0;
      ZeroTimes(d);
      assert a == 0;
    } else {
      TimesSum(q, j - q * k, k, d);
      hide Times;
      assert Times(j - q * k, d) == a;
    }
  }

  lemma ZeroTimes(d: nat)
    ensures Times(0, d) == 0 && Divides(d, 0)
  {
  }

  /** The common divisors of two numbers are the divisors of their gcd. */
  lemma {:induction false} GcdDivisors(a: nat, b: nat, d: nat)
    ensures Divides(d, Gcd(a, b)) <==> Divides(d, a) && Divides(d, b)
    decreases b
  {
    if b == 0 {
      assert Times(0, d) == 0;
    } else {
      hide Divides;
      var q, r := a / b, a % b;
      assert a == q * b + r;
      GcdDivisors(b, r, d);
      if Divides(d, b) && Divides(d, r) {
        DividesSum(d, r, b, q);
      }
      if Divides(d, b) && Divides(d, a) {
        DividesRest(d, r, b, q);
      }
    }
  }

  /** The interval in microseconds that `getTimeout` gives back. */
  function IntervalOf(mhz: Frequency, ticks: word): nat {
    Units(mhz);
    ToUser(TimeFastMicros(mhz), ticks)
  }

  function GcdOf(mhz: Frequency, timeouts: seq<word>): nat
    requires timeouts != []
  {
    var n := |timeouts| - 1;
    if n == 0 then IntervalOf(mhz, timeouts[0]) else Gcd(GcdOf(mhz, timeouts[..n]), IntervalOf(mhz, timeouts[n]))
  }

  /** `GcdOf` is the greatest common divisor of all intervals. */
  lemma {:induction false} GcdOfAll(mhz: Frequency, timeouts: seq<word>, d: nat)
    requires timeouts != []
    ensures Divides(d, GcdOf(mhz, timeouts)) <==>
              forall i :: 0 <= i < |timeouts| ==> Divides(d, IntervalOf(mhz, timeouts[i]))
  {
    hide Divides;
    hide IntervalOf;
    var n := |timeouts| - 1;
    if n > 0 {
      GcdOfAll(mhz, timeouts[..n], d);
      GcdDivisors(GcdOf(mhz, timeouts[..n]), IntervalOf(mhz, timeouts[n]), d);
      assert forall i :: 0 <= i < n ==> timeouts[..n][i] == timeouts[i];
    }
  }

  function ToMillis(us: nat): nat {
    if us == 0 then 0 else if us <= 1000 then 1 else (us + 999) / 1000
  }

  /** 0 stands for no function, or none with an interval. */
  function GrainOf(mhz: Frequency, timeouts: seq<word>): nat {
    if timeouts == [] then 0 else ToMillis(GcdOf(mhz, timeouts))
  }

  /** The cached grain is missing or right. */
  ghost predicate GrainRight(grain: nat, mhz: Frequency, timeouts: seq<word>) {
    grain == 0 || grain == GrainOf(mhz, timeouts)
  }

  /** The least number of milliseconds that covers the interval. */
  lemma ToMillisRoundsUp(us: nat, ms: nat)
    ensures 1000 * ms >= us <==> ms >= ToMillis(us)
  {
  }

  /** Registering a function keeps the cached grain missing or right. */
  method RegisterKeepsGrain(r: Recurrent, reg: Registration) returns (ok: bool)
    requires r.Valid() && GrainRight(r.grain, r.mhz, Timeouts(r.Contents()))
    modifies r, r.all
    ensures r.Valid() && GrainRight(r.grain, r.mhz, Timeouts(r.Contents()))
  {
    hide Timeouts;
    hide GrainOf;
    ghost var es := r.Contents();
    ok := r.Register(reg);
    assert es + [] == es;
  }

  /** So does a run, whatever is registered and removed. */
  method RunKeepsGrain(r: Recurrent, env: Environment)
    requires r.Valid() && GrainRight(r.grain, r.mhz, Timeouts(r.Contents()))
    modifies r, r.all
    ensures r.Valid() && GrainRight(r.grain, r.mhz, Timeouts(r.Contents()))
  {
    hide Timeouts;
    hide GrainOf;
    r.RunScheduledRecurrentFunctions(env);
  }

  /** Up to `timeMax()`, the interval is the one asked for. */
  lemma IntervalAsRequested(mhz: Frequency, r: Registration)
    ensures Usable(TimeFastMicros(mhz))
    ensures var timer := NewEntry(mhz, r).timer;
            r.repeat <= TimeMax(TimeFastMicros(mhz)) ==> IntervalOf(mhz, timer.timeout) == r.repeat && !timer.never
  {
    Units(mhz);
    var u := TimeFastMicros(mhz);
    hide Compensation;
    hide Multiplier;
    hide MultiplierMax;
    if r.repeat <= TimeMax(u) {
      TimeoutRoundTrip(u, r.repeat);
      hide ToTicks;
      hide ToUser;
      NoWrap(ToTicks(u, r.repeat));
    }
  }

  /**
    Beyond `timeMax()`, which the assertion in `schedule_recurrent_function_us` lets through, the timer never says it is
    time, or always, if the number of ticks wraps to 0.
  */
  lemma BeyondTimeMax(mhz: Frequency, r: Registration, now: word)
    ensures Usable(TimeFastMicros(mhz))
    ensures r.repeat > TimeMax(TimeFastMicros(mhz)) ==>
              (Polled(NewEntry(mhz, r).timer, now).expired <==> r.repeat * mhz % 0x1_0000_0000 == 0)
  {
    Units(mhz);
    var u := TimeFastMicros(mhz);
    var ticks := r.repeat * mhz % 0x1_0000_0000;
    assert ToTicks(u, r.repeat) == ticks / 1 == ticks by {
      hide Compensation;
      hide Multiplier;
    }
    hide ToTicks;
    hide TimeMax;
    hide Whole;
    NoWrap(ticks);
  }

  /** At 80 MHz such an interval is 2^28 microseconds: the function is called at every run. */
  lemma CalledAtEveryRun(r: Registration, now: word)
    requires r.repeat == 0x1000_0000
    ensures Polled(NewEntry(80, r).timer, now).expired
  {
    Units(80);
    assert TimeMax(TimeFastMicros(80)) == 26843545 by {
      hide Compensation;
      hide Multiplier;
    }
    BeyondTimeMax(80, r, now);
  }

  // ----- a computation that is interrupted

  /** What is registered at the `k`th point where interrupts are allowed. */
  function Point(env: seq<seq<Registration>>, k: nat): seq<Registration> {
    if k < |env| then env[k] else []
  }

  function RegisteredUpTo(mhz: Frequency, env: seq<seq<Registration>>, n: nat): seq<Entry> {
    if n == 0 then [] else RegisteredUpTo(mhz, env, n - 1) + Registered(mhz, Point(env, n - 1))
  }

  lemma DividesMeans(d: nat, n: nat)
    requires Divides(d, n) && n > 0
    ensures 0 < d && (d == n || 2 * d <= n)
  {
    var k: nat :| Times(k, d) == n;
    if k >= 2 {
      assert k * d == 2 * d + (k - 2) * d;
    }
  }

  lemma GreaterDoesNotDivide(d: nat, n: nat)
    requires 0 < n < d
    ensures !Divides(d, n)
  {
    if Divides(d, n) {
      DividesMeans(d, n);
    }
  }

  lemma DividesItself(d: nat)
    ensures Divides(d, d)
  {
    assert Times(1, d) == d;
  }

  lemma MillisOfHalf(g: nat, h: nat)
    requires g > 1000 && 0 < h && 2 * h <= g
    ensures ToMillis(h) < ToMillis(g)
  {
  }

  /** The gcd of more intervals divides the gcd of the first, and is the same exactly if that divides the new ones. */
  lemma GcdOfMore(mhz: Frequency, read: seq<word>, late: seq<word>)
    requires read != []
    ensures var g, h := GcdOf(mhz, read), GcdOf(mhz, read + late);
            && Divides(h, g)
            && (Divides(g, h) <==> forall i :: 0 <= i < |late| ==> Divides(g, IntervalOf(mhz, late[i])))
  {
    hide Divides;
    hide IntervalOf;
    hide GcdOf;
    var g, h, all := GcdOf(mhz, read), GcdOf(mhz, read + late), read + late;
    DividesItself(h);
    DividesItself(g);
    GcdOfAll(mhz, all, h);
    GcdOfAll(mhz, read, h);
    GcdOfAll(mhz, all, g);
    GcdOfAll(mhz, read, g);
    assert forall i :: 0 <= i < |read| ==> all[i] == read[i];
    assert forall i :: 0 <= i < |late| ==> all[|read| + i] == late[i];
    forall i | 0 <= i < |read|
      ensures Divides(h, IntervalOf(mhz, read[i]))
    {
      assert Divides(h, IntervalOf(mhz, all[i]));
    }
    if forall i :: 0 <= i < |late| ==> Divides(g, IntervalOf(mhz, late[i])) {
      forall i | 0 <= i < |all|
        ensures Divides(g, IntervalOf(mhz, all[i]))
      {
        if i >= |read| {
          assert all[i] == late[i - |read|];
        }
      }
    }
    if Divides(g, h) {
      forall i | 0 <= i < |late|
        ensures Divides(g, IntervalOf(mhz, late[i]))
      {
        assert Divides(g, IntervalOf(mhz, all[|read| + i]));
      }
    }
  }

  /**
    A grain computed from the intervals read is right for a list that got more meanwhile if and only if it is a
    millisecond at most, or every new interval is a multiple of the gcd of those read.
  */
  lemma GrainRightExactly(mhz: Frequency, read: seq<word>, late: seq<word>)
    requires read != []
    ensures GrainRight(GrainOf(mhz, read), mhz, read + late) <==>
            GcdOf(mhz, read) <= 1000 ||
              forall i :: 0 <= i < |late| ==> Divides(GcdOf(mhz, read), IntervalOf(mhz, late[i]))
  {
    hide Divides;
    hide IntervalOf;
    hide GcdOf;
    var g, h := GcdOf(mhz, read), GcdOf(mhz, read + late);
    GcdOfMore(mhz, read, late);
    if g > 0 {
      DividesMeans(h, g);
      if h != g && Divides(g, h) {
        DividesMeans(g, h);
      }
      DividesItself(g);
      if g > 1000 && h != g {
        MillisOfHalf(g, h);
      }
    }
  }

  /** An entry with a shorter interval leaves the old grain wrong: 2 ms were computed, and 1 ms came in. */
  lemma StaleGrain()
    ensures !GrainRight(GrainOf(80, [160000]), 80, [160000, 80000])
  {
    Units(80);
    assert IntervalOf(80, 160000) == 2000 && IntervalOf(80, 80000) == 1000;
    hide IntervalOf;
    GrainRightExactly(80, [160000], [80000]);
    assert [160000] + [80000] == [160000, 80000];
    GreaterDoesNotDivide(2000, 1000);
    assert [80000][0] == 80000;
  }

  lemma TimeoutsOfSum(es: seq<Entry>, more: seq<Entry>)
    ensures Timeouts(es + more) == Timeouts(es) + Timeouts(more)
  {
  }

  /** `us` is the gcd of the first `k` intervals. */
  ghost predicate ReadUpTo(mhz: Frequency, es: seq<Entry>, k: nat, us: nat) {
    0 < k <= |es| && us == GcdOf(mhz, Timeouts(es)[..k])
  }

  lemma ReadFirst(mhz: Frequency, es: seq<Entry>)
    requires es != []
    ensures ReadUpTo(mhz, es, 1, IntervalOf(mhz, es[0].timer.timeout))
  {
    hide IntervalOf;
    assert Timeouts(es)[..1] == [es[0].timer.timeout];
  }

  lemma ReadMore(mhz: Frequency, es: seq<Entry>, k: nat, us: nat)
    requires ReadUpTo(mhz, es, k, us) && k < |es|
    ensures ReadUpTo(mhz, es, k + 1, Gcd(us, IntervalOf(mhz, es[k].timer.timeout)))
  {
    hide IntervalOf;
    var ts := Timeouts(es);
    assert ts[..k + 1][..k] == ts[..k] && ts[..k + 1][k] == es[k].timer.timeout;
  }

  lemma ReadGrows(mhz: Frequency, es: seq<Entry>, more: seq<Entry>, k: nat, us: nat)
    requires ReadUpTo(mhz, es, k, us)
    ensures ReadUpTo(mhz, es + more, k, us)
  {
    hide GcdOf;
    assert Timeouts(es + more)[..k] == Timeouts(es)[..k];
  }

  lemma ReadAll(mhz: Frequency, es: seq<Entry>, us: nat)
    requires ReadUpTo(mhz, es, |es|, us)
    ensures us == GcdOf(mhz, Timeouts(es))
  {
    assert Timeouts(es)[..|es|] == Timeouts(es);
  }

  lemma NoPointYet(mhz: Frequency, es: seq<Entry>, env: seq<seq<Registration>>)
    ensures es + RegisteredUpTo(mhz, env, 0) == es
  {
  }

  lemma OnePointMore(mhz: Frequency, es: seq<Entry>, env: seq<seq<Registration>>, n: nat)
    ensures es + RegisteredUpTo(mhz, env, n) + Registered(mhz, Point(env, n)) == es + RegisteredUpTo(mhz, env, n + 1)
    ensures n >= |env| ==> Registered(mhz, Point(env, n)) == []
  {
  }

  /** The loop over the list, which may grow as long as its end has not been read; `points` says how many times. */
  method ReadIntervals(r: Recurrent, env: seq<seq<Registration>>) returns (us: nat, points: nat)
    requires r.Valid() && r.first != null && r.grain == 0
    modifies r`first, r`last, r`items, r`all, r`grain, r.all`next
    ensures r.Valid() && fresh(r.all - old(r.all)) && r.grain == 0
    ensures r.Contents() == old(r.Contents()) + RegisteredUpTo(r.mhz, env, points)
    ensures r.Contents() != [] && us == GcdOf(r.mhz, Timeouts(r.Contents()))
  {
    hide Values;
    hide IntervalOf;
    hide ReadUpTo;
    hide Registered;
    hide RegisteredUpTo;
    hide Timeouts;
    hide GcdOf;
    hide Gcd;
    hide r.Valid;
    ghost var es := r.Contents();
    r.Ends();
    us := IntervalOf(r.mhz, r.first.value.timer.timeout);
    assert us == IntervalOf(r.mhz, es[0].timer.timeout);
    ReadFirst(r.mhz, es);
    NoPointYet(r.mhz, es, env);
    OnePointMore(r.mhz, es, env, 0);
    ReadGrows(r.mhz, es, Registered(r.mhz, Point(env, 0)), 1, us);
    r.Interrupts(Point(env, 0));
    r.Ends();
    r.NextIs(0);
    var it := r.first.next;
    points := 1;
    while it != null
      invariant r.Valid() && r.grain == 0 && fresh(r.all - old(r.all))
      invariant r.Contents() == es + RegisteredUpTo(r.mhz, env, points)
      invariant ReadUpTo(r.mhz, r.Contents(), points, us)
      invariant if it == null then points == |r.items| else points < |r.items| && it == r.items[points]
      decreases if points < |env| then |env| - points else 0, |r.items| - points
    {
      ghost var list, now := r.Contents(), Registered(r.mhz, Point(env, points));
      assert list[points] == it.value;
      ReadMore(r.mhz, list, points, us);
      us := Gcd(us, IntervalOf(r.mhz, it.value.timer.timeout));
      ReadGrows(r.mhz, list, now, points + 1, us);
      OnePointMore(r.mhz, es, env, points);
      r.Interrupts(Point(env, points));
      r.NextIs(points);
      it := it.next;
      points := points + 1;
    }
    ReadAll(r.mhz, r.Contents(), us);
  }

  /** The list that was read, and what came later. */
  ghost predicate ComputedFrom(mhz: Frequency, grain: nat, now: seq<Entry>, read: seq<Entry>, late: seq<Entry>) {
    && read != [] && now == read + late && grain == GrainOf(mhz, Timeouts(read))
    && (GrainRight(grain, mhz, Timeouts(now)) <==>
          || GcdOf(mhz, Timeouts(read)) <= 1000
          || forall i :: 0 <= i < |late| ==>
            Divides(GcdOf(mhz, Timeouts(read)), IntervalOf(mhz, late[i].timer.timeout)))
  }

  lemma GrainComputedFrom(mhz: Frequency, grain: nat, read: seq<Entry>, late: seq<Entry>)
    requires read != [] && grain == GrainOf(mhz, Timeouts(read))
    ensures ComputedFrom(mhz, grain, read + late, read, late)
  {
    hide GrainOf;
    hide GcdOf;
    hide GrainRight;
    hide Divides;
    hide IntervalOf;
    TimeoutsOfSum(read, late);
    GrainRightExactly(mhz, Timeouts(read), Timeouts(late));
  }

  /**
    `compute_scheduled_recurrent_grain` with functions registered between the reads of the list (`env`) and between the
    last read and the store (`late`). The grain stored is that of the list read, and right for the list as it then is
    exactly if nothing came late, it is a millisecond at most, or all that came late are multiples.
  */
  method ComputeGrainInterrupted(r: Recurrent, env: seq<seq<Registration>>, late: seq<Registration>)
    returns (grain: nat, ghost points: nat)
    requires r.Valid()
    modifies r`first, r`last, r`items, r`all, r`grain, r.all`next
    ensures r.Valid() && grain == r.grain
    ensures old(r.grain) != 0 || old(r.Contents()) == [] ==> grain == old(r.grain) && r.Contents() == old(r.Contents())
    ensures old(r.grain) == 0 && old(r.Contents()) != [] ==>
              ComputedFrom(r.mhz, grain, r.Contents(), old(r.Contents()) + RegisteredUpTo(r.mhz, env, points),
                           Registered(r.mhz, late))
  {
    hide Values;
    hide ComputedFrom;
    hide Registered;
    hide RegisteredUpTo;
    hide Timeouts;
    hide GcdOf;
    hide r.Valid;
    points := 0;
    r.Ends();
    if r.grain != 0 || r.first == null {
      return r.grain, 0;
    }
    var us;
    us, points := ReadIntervals(r, env);
    ghost var read := r.Contents();
    r.Interrupts(late);
    if us != 0 {
      r.grain := if us <= 1000 then 1 else (us + 999) / 1000;
    }
    grain := r.grain;
    GrainComputedFrom(r.mhz, grain, read, Registered(r.mhz, late));
  }

  lemma {:induction false} NothingRegistered(mhz: Frequency, n: nat)
    ensures RegisteredUpTo(mhz, [], n) == [] && Registered(mhz, []) == []
  {
    if n > 0 {
      NothingRegistered(mhz, n - 1);
    }
  }

  /** When nothing is registered meanwhile, the grain is right. */
  method ComputeGrain(r: Recurrent) returns (grain: nat)
    requires r.Valid() && GrainRight(r.grain, r.mhz, Timeouts(r.Contents()))
    modifies r`first, r`last, r`items, r`all, r`grain, r.all`next
    ensures r.Valid() && r.Contents() == old(r.Contents()) && grain == r.grain == GrainOf(r.mhz, Timeouts(r.Contents()))
  {
    hide Registered;
    hide RegisteredUpTo;
    hide r.Valid;
    hide GcdOf;
    ghost var es, points := r.Contents(), 0;
    grain, points := ComputeGrainInterrupted(r, [], []);
    NothingRegistered(r.mhz, points);
    assert es + [] == es && es + [] + [] == es;
  }
}
