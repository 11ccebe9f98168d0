/** When a function that stays registered is called, over any number of runs. */
module RecurrentRuns {
  import opened Bytes
  import opened PolledTimeout
  import opened Recurrent

  // ----- one run

  lemma {:induction false} KeptGrows(es: seq<Entry>, env: Environment, m: nat, n: nat)
    requires m <= n <= |es|
    ensures Kept(es, env, m) <= Kept(es, env, n)
    decreases n
  {
    hide IsRemoved;
    hide Checked;
    if m < n {
      KeptGrows(es, env, m, n - 1);
    }
  }

  /** A function that is not removed is behind the functions kept before it, with its timer polled. */
  lemma StaysInPlace(mhz: Frequency, es: seq<Entry>, env: Environment, k: nat)
    requires k < |es| && !IsRemoved(es[k], env.visits(k))
    ensures var now, place := ListAfter(mhz, es, env, |es|), |Kept(es, env, k)|;
            place < |now| && now[place] == Checked(es[k], env.visits(k))
  {
    hide IsRemoved;
    hide Checked;
    hide Kept;
    KeptNext(es, env, k);
    KeptGrows(es, env, k + 1, |es|);
    var kept := Kept(es, env, |es|);
    assert Kept(es, env, k + 1) == kept[..|Kept(es, env, k + 1)|];
  }

  /** The functions that a run calls, ... */
  ghost function CalledPlaces(es: seq<Entry>, env: Environment, n: nat): (places: seq<nat>)
    requires n <= |es|
    ensures forall i :: 0 <= i < |places| ==> places[i] < n
  {
    if n == 0 then [] else
    CalledPlaces(es, env, n - 1) + if IsCalled(es[n - 1], env.visits(n - 1)) then [n - 1] else []
  }

  /** ... in their order, ... */
  lemma {:induction false} CalledInOrder(es: seq<Entry>, env: Environment, n: nat)
    requires n <= |es|
    ensures var places, calls := CalledPlaces(es, env, n), CallsOf(es, env, n);
            && |calls| == |places|
            && (forall i :: 0 <= i < |places| ==> calls[i] == es[places[i]].fn)
            && (forall i, j :: 0 <= i < j < |places| ==> places[i] < places[j])
  {
    hide IsCalled;
    if n > 0 {
      CalledInOrder(es, env, n - 1);
    }
  }

  /** ... are exactly those whose alarm rings or whose timer has expired. */
  lemma {:induction false} CalledExactly(es: seq<Entry>, env: Environment, n: nat, i: nat)
    requires n <= |es|
    ensures i in CalledPlaces(es, env, n) <==>
              i < n && ((es[i].alarm && env.visits(i).rings) || Polled(es[i].timer, env.visits(i).now).expired)
  {
    hide Polled;
    if n > 0 {
      CalledExactly(es, env, n - 1, i);
    }
  }

  // ----- any number of runs

  /** The list after runs, one after the other. */
  ghost function ListAfterRuns(mhz: Frequency, es: seq<Entry>, envs: seq<Environment>): seq<Entry> {
    if envs == [] then es else
    var n := |envs| - 1;
    var before := ListAfterRuns(mhz, es, envs[..n]);
    ListAfter(mhz, before, envs[n], |before|)
  }

  /** Where the `k`th function of `es` is then, as long as it stays registered. */
  ghost function PlaceAfter(mhz: Frequency, es: seq<Entry>, envs: seq<Environment>, k: nat): nat {
    if envs == [] then k else
    var n := |envs| - 1;
    var before, place := ListAfterRuns(mhz, es, envs[..n]), PlaceAfter(mhz, es, envs[..n], k);
    if place < |before| then |Kept(before, envs[n], place)| else 0
  }

  /** What it meets at the following run. */
  ghost function NextVisit(mhz: Frequency, es: seq<Entry>, envs: seq<Environment>, k: nat, env: Environment): Visit {
    env.visits(PlaceAfter(mhz, es, envs, k))
  }

  /** It is not removed by any of the runs. */
  ghost predicate Stays(mhz: Frequency, es: seq<Entry>, envs: seq<Environment>, k: nat) {
    if envs == [] then k < |es| else
    var n := |envs| - 1;
    var before, place := ListAfterRuns(mhz, es, envs[..n]), PlaceAfter(mhz, es, envs[..n], k);
    Stays(mhz, es, envs[..n], k) && place < |before| && !IsRemoved(before[place], envs[n].visits(place))
  }

  /** The runs meet it at these times. */
  ghost predicate MetAt(mhz: Frequency, es: seq<Entry>, envs: seq<Environment>, k: nat, times: seq<nat>) {
    |times| == |envs| &&
    forall i :: 0 <= i < |envs| ==> NextVisit(mhz, es, envs[..i], k, envs[i]).now == Clock(times[i])
  }

  lemma MetBefore(mhz: Frequency, es: seq<Entry>, envs: seq<Environment>, k: nat, times: seq<nat>)
    requires MetAt(mhz, es, envs, k, times) && envs != []
    ensures var n := |envs| - 1;
            && MetAt(mhz, es, envs[..n], k, times[..n])
            && NextVisit(mhz, es, envs[..n], k, envs[n]).now == Clock(times[n])
  {
    hide NextVisit;
    var n := |envs| - 1;
    forall i | 0 <= i < n
      ensures NextVisit(mhz, es, envs[..n][..i], k, envs[..n][i]).now == Clock(times[..n][i])
    {
      assert envs[..n][..i] == envs[..i];
    }
  }

  /** A function that stays is still what it was, with its timer polled at each run. */
  lemma {:induction false} StaysPolled(mhz: Frequency, es: seq<Entry>, envs: seq<Environment>, k: nat, times: seq<nat>)
    requires k < |es| && Stays(mhz, es, envs, k) && MetAt(mhz, es, envs, k, times)
    ensures var now, place := ListAfterRuns(mhz, es, envs), PlaceAfter(mhz, es, envs, k);
            place < |now| && now[place] == es[k].(timer := Polls(es[k].timer, times))
  {
    hide Polled;
    hide ListAfter;
    hide Kept;
    hide IsRemoved;
    if envs != [] {
      var n := |envs| - 1;
      MetBefore(mhz, es, envs, k, times);
      StaysPolled(mhz, es, envs[..n], k, times[..n]);
      StaysInPlace(mhz, ListAfterRuns(mhz, es, envs[..n]), envs[n], PlaceAfter(mhz, es, envs[..n], k));
    }
  }

  /** The interval in ticks of the CPU clock. */
  ghost function Ticks(mhz: Frequency, repeat: nat): (p: nat)
    ensures p == mhz * repeat && (repeat > 0 ==> p > 0)
  {
    mhz * repeat
  }

  /** `timeMax()` of the timer, the same at both frequencies: about 26.8 seconds. */
  const TIME_MAX: nat := 26843545

  lemma TimeMaxIs(mhz: Frequency)
    ensures Usable(TimeFastMicros(mhz)) && TimeMax(TimeFastMicros(mhz)) == TIME_MAX
  {
    Units(mhz);
  }

  lemma NewTimer(mhz: Frequency, r: Registration)
    requires r.repeat <= TIME_MAX
    ensures Ticks(mhz, r.repeat) < 0x1_0000_0000
    ensures NewEntry(mhz, r) == Entry(r.fn, Timer(Ticks(mhz, r.repeat), r.now, false), r.alarm)
  {
    TimeMaxIs(mhz);
    Units(mhz);
    ToTicksExact(TimeFastMicros(mhz), r.repeat);
  }

  /** The function met at time `t`, whose timer was last polled at `before`, is called exactly when it should be. */
  ghost predicate CalledWhenDue(e: Entry, v: Visit, alarm: bool, period: nat, origin: nat, before: nat, t: nat)
    requires period > 0
  {
    && origin <= before <= t
    && (IsCalled(e, v) <==> (alarm && v.rings) || (t - origin) / period > (before - origin) / period)
  }

  /**
    A function registered at time `origin`, to be called every `r.repeat` microseconds, that has stayed registered over
    runs that met it at `times`, is called by the run that meets it at `t` if and only if its alarm rings or a period,
    counted from its registration, has ended since the run before.
  */
  lemma CalledOncePerPeriod(mhz: Frequency, r: Registration, es: seq<Entry>, envs: seq<Environment>, k: nat,
                            origin: nat, times: seq<nat>, env: Environment, t: nat)
    requires 0 < r.repeat <= TIME_MAX && r.now == Clock(origin)
    requires k < |es| && es[k] == NewEntry(mhz, r) && Stays(mhz, es, envs, k) && MetAt(mhz, es, envs, k, times)
    requires Regular(origin, Ticks(mhz, r.repeat), times + [t])
    requires NextVisit(mhz, es, envs, k, env).now == Clock(t)
    ensures var now, place := ListAfterRuns(mhz, es, envs), PlaceAfter(mhz, es, envs, k);
            && place < |now| && now[place].fn == r.fn
            && CalledWhenDue(now[place], env.visits(place), r.alarm, Ticks(mhz, r.repeat), origin,
                             Before(origin, times), t)
  {
    hide Polled;
    hide Polls;
    hide ListAfterRuns;
    hide PlaceAfter;
    hide Stays;
    hide MetAt;
    hide Regular;
    hide NewEntry;
    hide Ticks;
    NewTimer(mhz, r);
    StaysPolled(mhz, es, envs, k, times);
    AnswersAtBoundaries(Ticks(mhz, r.repeat), origin, times, t);
  }

  /** With an interval of 0 it is called at every run. */
  lemma CalledAlways(mhz: Frequency, r: Registration, es: seq<Entry>, envs: seq<Environment>, k: nat, times: seq<nat>,
                     v: Visit)
    requires r.repeat == 0
    requires k < |es| && es[k] == NewEntry(mhz, r) && Stays(mhz, es, envs, k) && MetAt(mhz, es, envs, k, times)
    ensures var now, place := ListAfterRuns(mhz, es, envs), PlaceAfter(mhz, es, envs, k);
            place < |now| && IsCalled(now[place], v)
  {
    hide ListAfterRuns;
    hide PlaceAfter;
    hide Stays;
    hide MetAt;
    hide NewEntry;
    NewTimer(mhz, r);
    StaysPolled(mhz, es, envs, k, times);
    AlwaysExpires(es[k].timer, times);
  }

  lemma {:induction false} AlwaysExpires(timer: Timer, times: seq<nat>)
    requires timer.timeout == 0
    ensures Polls(timer, times) == timer
  {
    if times != [] {
      AlwaysExpires(timer, times[..|times| - 1]);
    }
  }
}
