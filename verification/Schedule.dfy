/**
  The queue of functions to call once, from `Schedule.cpp`. Functions are numbers; 0 is the empty `std::function`.
  Interrupts and the functions called may schedule more functions wherever interrupts are not locked out.
*/
module Schedule {
  import opened Chain

  type Fn = nat

  const EMPTY: Fn := 0
  const MAX_COUNT: nat := 32

  /** One call of `schedule_function`, and whether memory for a new item can be had. */
  datatype Request = Request(fn: Fn, memory: bool)

  /** The functions waiting, and how many items are idle. */
  datatype Waiting = Waiting(queue: seq<Fn>, idle: nat)

  predicate Accepts(w: Waiting, r: Request) {
    r.fn != EMPTY && (w.idle > 0 || (|w.queue| < MAX_COUNT && r.memory))
  }

  /** `schedule_function`. */
  function Scheduled(w: Waiting, r: Request): Waiting {
    if Accepts(w, r) then Waiting(w.queue + [r.fn], if w.idle > 0 then w.idle - 1 else 0) else w
  }

  function ScheduledAll(w: Waiting, rs: seq<Request>): (r: Waiting)
    ensures |r.queue| >= |w.queue| && r.queue[..|w.queue|] == w.queue
  {
    if rs == [] then w else Scheduled(ScheduledAll(w, rs[..|rs| - 1]), rs[|rs| - 1])
  }

  /** The first function is done and its item is idle again. */
  function Removed(w: Waiting): Waiting {
    if w.queue == [] then w else Waiting(w.queue[1..], w.idle + 1)
  }

  /** What is scheduled meanwhile: at point 0 before the first call, at 2i+1 during the `i`th call, at 2i+2 after it. */
  type Meanwhile = nat -> seq<Request>

  lemma Behind(called: seq<Fn>, queue: seq<Fn>, n: nat)
    requires 0 < n
    requires n <= |queue| ==> |called| > |queue| - n && called[..|queue| - n + 1] == queue[n - 1..]
    ensures n <= |queue| ==> called[1..][..|queue| - n] == queue[n..]
  {
    if n <= |queue| {
      assert called[..|queue| - n + 1][1..] == called[1..][..|queue| - n];
    }
  }

  /** `n` turns of the loop. */
  function After(w: Waiting, n: nat, env: Meanwhile): (r: Waiting)
    ensures n <= |w.queue| ==> |r.queue| >= |w.queue| - n && r.queue[..|w.queue| - n] == w.queue[n..]
  {
    if n == 0 then ScheduledAll(w, env(0)) else
    var before := After(w, n - 1, env);
    var called := ScheduledAll(before, env(2 * n - 1));
    assert n <= |w.queue| ==> called.queue[..|w.queue| - n + 1] == w.queue[n - 1..];
    Behind(called.queue, w.queue, n);
    ScheduledAll(Removed(called), env(2 * n))
  }

  lemma AfterStarts(w: Waiting, env: Meanwhile)
    ensures After(w, 0, env) == ScheduledAll(w, env(0)) && ScheduledAll(w, []) == w
  {
  }

  lemma AfterStep(w: Waiting, n: nat, env: Meanwhile)
    ensures After(w, n + 1, env) ==
            ScheduledAll(Removed(ScheduledAll(After(w, n, env), env(2 * n + 1))), env(2 * n + 2))
  {
  }

  lemma FirstAfter(w: Waiting, n: nat, env: Meanwhile)
    requires n < |w.queue|
    ensures After(w, n, env).queue != [] && After(w, n, env).queue[0] == w.queue[n]
  {
    var q := After(w, n, env).queue;
    assert q[..|w.queue| - n][0] == q[0];
  }

  // ----- what is scheduled is called

  predicate Bounded(w: Waiting) {
    |w.queue| + w.idle <= MAX_COUNT
  }

  /** Requests that only a full queue can refuse. */
  predicate Proper(rs: seq<Request>) {
    forall i :: 0 <= i < |rs| ==> rs[i].fn != EMPTY && rs[i].memory
  }

  function Wanted(rs: seq<Request>): (fs: seq<Fn>)
    ensures |fs| == |rs|
  {
    seq(|rs|, i requires 0 <= i < |rs| => rs[i].fn)
  }

  /** A proper request is refused exactly when 32 functions wait. */
  lemma RefusedExactly(w: Waiting, r: Request)
    requires Bounded(w) && r.fn != EMPTY && r.memory
    ensures !Accepts(w, r) <==> |w.queue| == MAX_COUNT
  {
  }

  predicate RoomFor(w: Waiting, rs: seq<Request>) {
    |w.queue| + |rs| <= MAX_COUNT
  }

  /** Proper requests are all accepted, in order, exactly if there is room for them. */
  lemma {:induction false} BatchExactly(w: Waiting, rs: seq<Request>)
    requires Bounded(w) && Proper(rs)
    ensures var r := ScheduledAll(w, rs);
            && Bounded(r) && |r.queue| == (if RoomFor(w, rs) then |w.queue| + |rs| else MAX_COUNT)
            && (RoomFor(w, rs) ==> r.queue == w.queue + Wanted(rs))
  {
    if rs == [] {
      assert w.queue + Wanted(rs) == w.queue;
    } else {
      var before := rs[..|rs| - 1];
      BatchExactly(w, before);
      assert Wanted(rs) == Wanted(before) + [rs[|rs| - 1].fn];
    }
  }

  /** Everything requested up to point `n`. */
  function Until(env: Meanwhile, n: nat): seq<Request> {
    if n == 0 then env(0) else Until(env, n - 1) + env(n)
  }

  lemma {:induction false} ProperParts(rs: seq<Request>, more: seq<Request>)
    requires Proper(rs + more)
    ensures Proper(rs) && Proper(more) && Wanted(rs + more) == Wanted(rs) + Wanted(more)
  {
    assert forall i :: 0 <= i < |rs| ==> (rs + more)[i] == rs[i];
    assert forall i :: 0 <= i < |more| ==> (rs + more)[|rs| + i] == more[i];
  }

  lemma UntilTurn(env: Meanwhile, m: nat)
    ensures Until(env, 2 * m + 2) == Until(env, 2 * m) + env(2 * m + 1) + env(2 * m + 2)
  {
    assert Until(env, 2 * m + 1) == Until(env, 2 * m) + env(2 * m + 1);
  }

  /** One turn of the loop: what is scheduled during the call, the removal, and what is scheduled after it. */
  function TurnOf(w: Waiting, during: seq<Request>, later: seq<Request>): Waiting {
    ScheduledAll(Removed(ScheduledAll(w, during)), later)
  }

  predicate RoomInTurn(w: Waiting, during: seq<Request>, later: seq<Request>) {
    RoomFor(w, during) && RoomFor(Removed(ScheduledAll(w, during)), later)
  }

  /** Whenever functions are requested, there is room for them in the queue as it then is. */
  predicate RoomThroughout(w: Waiting, n: nat, env: Meanwhile) {
    if n == 0 then RoomFor(w, env(0)) else
    RoomThroughout(w, n - 1, env) && RoomInTurn(After(w, n - 1, env), env(2 * (n - 1) + 1), env(2 * (n - 1) + 2))
  }

  lemma TurnExactly(w: Waiting, during: seq<Request>, later: seq<Request>)
    requires Bounded(w) && w.queue != [] && Proper(during) && Proper(later)
    ensures var r := TurnOf(w, during, later);
            && Bounded(r)
            && (if RoomInTurn(w, during, later) then r.queue == w.queue[1..] + (Wanted(during) + Wanted(later))
                else |r.queue| < |w.queue| - 1 + |during| + |later|)
  {
    hide ScheduledAll;
    hide Wanted;
    hide Proper;
    BatchExactly(w, during);
    var called := ScheduledAll(w, during);
    BatchExactly(Removed(called), later);
    if RoomFor(w, during) {
      assert (w.queue + Wanted(during))[1..] == w.queue[1..] + Wanted(during);
    }
  }

  /** What is left of the queue and what came, if nothing was lost. */
  ghost predicate NothingLost(w: Waiting, n: nat, all: seq<Request>, r: Waiting)
    requires n <= |w.queue|
  {
    r.queue == w.queue[n..] + Wanted(all)
  }

  lemma LostInTurn(w: Waiting, n: nat, before: Waiting, all: seq<Request>, during: seq<Request>, later: seq<Request>)
    requires n < |w.queue| && Bounded(before) && before.queue != [] && Proper(during) && Proper(later)
    requires NothingLost(w, n, all, before) || |before.queue| < |w.queue| - n + |all|
    ensures var r := TurnOf(before, during, later);
            && Bounded(r)
            && (if NothingLost(w, n, all, before) && RoomInTurn(before, during, later)
                then r.queue == w.queue[n + 1..] + (Wanted(all) + Wanted(during) + Wanted(later))
                else |r.queue| < |w.queue| - (n + 1) + |all| + |during| + |later|)
  {
    hide TurnOf;
    hide RoomInTurn;
    hide Wanted;
    hide Proper;
    TurnExactly(before, during, later);
    if NothingLost(w, n, all, before) {
      assert before.queue[1..] == w.queue[n + 1..] + Wanted(all);
    }
  }

  /**
    No proper request is lost and none overtakes another if and only if, whenever functions are requested, no more wait
    and are requested than 32.
  */
  lemma {:induction false} NothingIsLostExactly(w: Waiting, n: nat, env: Meanwhile)
    requires Bounded(w) && n <= |w.queue| && Proper(Until(env, 2 * n))
    ensures Bounded(After(w, n, env))
    ensures NothingLost(w, n, Until(env, 2 * n), After(w, n, env)) <==> RoomThroughout(w, n, env)
    ensures !RoomThroughout(w, n, env) ==> |After(w, n, env).queue| < |w.queue| - n + |Until(env, 2 * n)|
    decreases n
  {
    if n == 0 {
      BatchExactly(w, env(0));
      assert w.queue[0..] == w.queue;
    } else {
      var m := n - 1;
      var all, during, later := Until(env, 2 * m), env(2 * m + 1), env(2 * m + 2);
      NextTurn(w, m, env);
      hide *;
      ProperParts(all + during, later);
      ProperParts(all, during);
      NothingIsLostExactly(w, m, env);
      FirstAfter(w, m, env);
      LostInTurn(w, m, After(w, m, env), all, during, later);
      LostOrNot(w, n, all, during, later, After(w, n, env));
    }
  }

  lemma NextTurn(w: Waiting, m: nat, env: Meanwhile)
    ensures After(w, m + 1, env) == TurnOf(After(w, m, env), env(2 * m + 1), env(2 * m + 2))
    ensures Until(env, 2 * (m + 1)) == Until(env, 2 * m) + env(2 * m + 1) + env(2 * m + 2)
    ensures RoomThroughout(w, m + 1, env) ==
            (RoomThroughout(w, m, env) && RoomInTurn(After(w, m, env), env(2 * m + 1), env(2 * m + 2)))
  {
    hide ScheduledAll;
    hide RoomInTurn;
    AfterStep(w, m, env);
    UntilTurn(env, m);
  }

  lemma LostOrNot(w: Waiting, n: nat, all: seq<Request>, during: seq<Request>, later: seq<Request>, r: Waiting)
    requires n <= |w.queue| && Wanted(all + during + later) == Wanted(all) + Wanted(during) + Wanted(later)
    ensures NothingLost(w, n, all + during + later, r) <==>
              r.queue == w.queue[n..] + (Wanted(all) + Wanted(during) + Wanted(later))
    ensures |r.queue| < |w.queue| - n + |all| + |during| + |later| ==> !NothingLost(w, n, all + during + later, r)
  {
    hide Wanted;
  }

  /** Bookkeeping over any run: never more than 32 items. */
  lemma {:induction false} StaysBounded(w: Waiting, rs: seq<Request>)
    requires Bounded(w)
    ensures Bounded(ScheduledAll(w, rs))
  {
    if rs != [] {
      StaysBounded(w, rs[..|rs| - 1]);
    }
  }

  lemma {:induction false} NeverMoreItems(w: Waiting, n: nat, env: Meanwhile)
    requires Bounded(w)
    ensures Bounded(After(w, n, env))
  {
    if n == 0 {
      StaysBounded(w, env(0));
    } else {
      NeverMoreItems(w, n - 1, env);
      var called := ScheduledAll(After(w, n - 1, env), env(2 * n - 1));
      StaysBounded(After(w, n - 1, env), env(2 * n - 1));
      StaysBounded(Removed(called), env(2 * n));
    }
  }

  /** An interrupt schedules `fn`, which schedules itself again whenever it is called. */
  function Again(fn: Fn): Meanwhile {
    (t: nat) => if t == 0 || t % 2 == 1 then [Request(fn, true)] else []
  }

  // ----- the loop, for as many turns as it makes

  /**
    The loop goes on after `i` turns: the queue is not found empty, and the last item of entry, if there is one, is not
    done.
  */
  predicate Continues(w: Waiting, env: Meanwhile, i: nat) {
    After(w, i, env).queue != [] && (w.queue == [] || i < |w.queue|)
  }

  /** How many of `n` turns the loop makes. */
  function TurnsMade(w: Waiting, env: Meanwhile, n: nat): (k: nat)
    ensures k <= n
  {
    if n == 0 then 0 else
    var k := TurnsMade(w, env, n - 1);
    if k == n - 1 && Continues(w, env, k) then n else k
  }

  function Head(w: Waiting): Fn {
    if w.queue == [] then EMPTY else w.queue[0]
  }

  /** What `k` turns call. */
  function Called(w: Waiting, env: Meanwhile, k: nat): (fs: seq<Fn>)
    ensures |fs| == k
  {
    if k == 0 then [] else Called(w, env, k - 1) + [Head(After(w, k - 1, env))]
  }

  /** What the loop calls if it is watched for `n` turns. */
  function CallsMade(w: Waiting, env: Meanwhile, n: nat): seq<Fn> {
    Called(w, env, TurnsMade(w, env, n))
  }

  lemma {:induction false} TurnsStay(w: Waiting, env: Meanwhile, k: nat, n: nat)
    requires TurnsMade(w, env, k) == k <= n && !Continues(w, env, k)
    ensures TurnsMade(w, env, n) == k
  {
    hide Continues;
    if k < n {
      TurnsStay(w, env, k, n - 1);
    }
  }

  lemma {:induction false} TurnsGrow(w: Waiting, env: Meanwhile, k: nat, n: nat)
    requires k <= n
    ensures TurnsMade(w, env, k) <= TurnsMade(w, env, n)
  {
    hide Continues;
    if k < n {
      TurnsGrow(w, env, k, n - 1);
    }
  }

  /** As long as functions of entry wait, the loop makes a turn for each, in order. */
  lemma {:induction false} EntryTurns(w: Waiting, env: Meanwhile, k: nat)
    requires k <= |w.queue|
    ensures TurnsMade(w, env, k) == k && Called(w, env, k) == w.queue[..k]
  {
    hide After;
    if k > 0 {
      EntryTurns(w, env, k - 1);
      FirstAfter(w, k - 1, env);
    }
  }

  /** The requests at point 0 leave an empty queue empty exactly if none of them is accepted. */
  lemma {:induction false} NoneAcceptedExactly(w: Waiting, rs: seq<Request>)
    ensures ScheduledAll(w, rs).queue == w.queue <==> forall i :: 0 <= i < |rs| ==> !Accepts(w, rs[i])
    ensures (forall i :: 0 <= i < |rs| ==> !Accepts(w, rs[i])) ==> ScheduledAll(w, rs) == w
  {
    if rs != [] {
      var n := |rs| - 1;
      NoneAcceptedExactly(w, rs[..n]);
      assert forall i :: 0 <= i < n ==> rs[..n][i] == rs[i];
    }
  }

  /**
    The run calls exactly the functions that wait at entry if and only if there are some, or nothing that is requested
    between the look at the last item and the loop is accepted.
  */
  lemma CallsEntryExactly(w: Waiting, env: Meanwhile, n: nat)
    requires n > |w.queue|
    ensures CallsMade(w, env, n) == w.queue <==>
              w.queue != [] || forall i :: 0 <= i < |env(0)| ==> !Accepts(w, env(0)[i])
  {
    hide ScheduledAll;
    hide Accepts;
    var k := |w.queue|;
    EntryTurns(w, env, k);
    assert w.queue[..k] == w.queue;
    if k > 0 {
      TurnsStay(w, env, k, n);
    } else {
      NoneAcceptedExactly(w, env(0));
      AfterStarts(w, env);
      if After(w, 0, env).queue == [] {
        TurnsStay(w, env, 0, n);
      } else {
        assert TurnsMade(w, env, 1) == 1;
        TurnsGrow(w, env, 1, n);
      }
    }
  }

  /**
    With nothing waiting at entry there is no item to stop at: if `fn` comes in just then, the queue is never found
    empty, and the loop calls it for ever.
  */
  lemma {:induction false} EmptyEntryNeverEnds(fn: Fn, n: nat)
    requires fn != EMPTY
    ensures var w, env := Waiting([], 0), Again(fn);
            TurnsMade(w, env, n) == n && Continues(w, env, n) && CallsMade(w, env, n) == seq(n, _ => fn)
  {
    hide After;
    var w, env := Waiting([], 0), Again(fn);
    AlwaysOneWaits(fn, n);
    if n > 0 {
      EmptyEntryNeverEnds(fn, n - 1);
      AlwaysOneWaits(fn, n - 1);
      assert seq(n, _ => fn) == seq(n - 1, _ => fn) + [fn];
    }
  }

  lemma {:induction false} AlwaysOneWaits(fn: Fn, n: nat)
    requires fn != EMPTY
    ensures After(Waiting([], 0), n, Again(fn)) == Waiting([fn], if n == 0 then 0 else 1)
  {
    hide ScheduledAll;
    hide Again;
    var w, env, r := Waiting([], 0), Again(fn), Request(fn, true);
    AgainAt(fn, n);
    if n == 0 {
      OneRequest(w, r);
    } else {
      AlwaysOneWaits(fn, n - 1);
      AfterStep(w, n - 1, env);
      hide After;
      var before := After(w, n - 1, env);
      CalledAgain(fn, before.idle);
      OneRequest(before, r);
      AfterStarts(Waiting([fn], 1), env);
    }
  }

  lemma AgainAt(fn: Fn, n: nat)
    ensures Again(fn)(0) == [Request(fn, true)]
    ensures n > 0 ==> Again(fn)(2 * n - 1) == [Request(fn, true)] && Again(fn)(2 * n) == []
  {
  }

  lemma CalledAgain(fn: Fn, idle: nat)
    requires idle <= 1 && fn != EMPTY
    ensures Removed(Scheduled(Waiting([fn], idle), Request(fn, true))) == Waiting([fn], 1)
  {
    assert ([fn] + [fn])[1..] == [fn];
  }

  lemma OneRequest(w: Waiting, r: Request)
    ensures ScheduledAll(w, [r]) == Scheduled(w, r)
  {
    assert [r][..0] == [];
  }

  ghost predicate Disjoint(queue: seq<Item<Fn>>, free: seq<Item<Fn>>) {
    forall n :: n in queue ==> n !in free
  }

  lemma TailChained(items: seq<Item<Fn>>, first: Item<Fn>)
    requires Chained(items, first) && Distinct(items)
    ensures items != [] && items[0] == first && Chained(items[1..], first.next) && Distinct(items[1..]) &&
            first !in items[1..]
  {
  }

  /** The loop of `run_scheduled_functions` after `i` turns; `w`, `entry` and `called` are from its start. */
  ghost predicate Midway(w: Waiting, entry: seq<Item<Fn>>, env: Meanwhile, i: nat, done: bool, queue: seq<Item<Fn>>,
                         now: Waiting, called: seq<Fn>, calls: seq<Fn>)
  {
    && |entry| == |w.queue| && |queue| == |now.queue| &&
       (if entry == [] then !done else StillQueued(entry, i, done, queue))
    && now == After(w, i, env) && calls == called + Called(w, env, i) && TurnsMade(w, env, i) == i
  }

  ghost predicate StillQueued(entry: seq<Item<Fn>>, i: nat, done: bool, queue: seq<Item<Fn>>) {
    i <= |entry| && entry[i..] <= queue && done == (i == |entry|)
  }

  /** Only the last item of the entry queue ends the loop: until then it is in the queue and cannot be recycled. */
  lemma MidwayStep(w: Waiting, entry: seq<Item<Fn>>, env: Meanwhile, i: nat, queue: seq<Item<Fn>>, now: Waiting,
                   called: seq<Fn>, calls: seq<Fn>, queue': seq<Item<Fn>>, now': Waiting, calls': seq<Fn>)
    requires Midway(w, entry, env, i, false, queue, now, called, calls) && Distinct(entry) && queue != []
    requires queue[1..] <= queue' && |queue'| == |now'.queue| && now.queue != [] && calls' == calls + [now.queue[0]]
    requires now' == ScheduledAll(Removed(ScheduledAll(now, env(2 * i + 1))), env(2 * i + 2))
    ensures Midway(w, entry, env, i + 1, queue[0] == At(entry, |entry| - 1), queue', now', called, calls')
  {
    hide After;
    hide ScheduledAll;
    hide Removed;
    AfterStep(w, i, env);
    if entry != [] {
      NextEntry(entry, i, queue, queue');
    }
    assert Called(w, env, i + 1) == Called(w, env, i) + [now.queue[0]];
  }

  lemma NextEntry(entry: seq<Item<Fn>>, i: nat, before: seq<Item<Fn>>, queue: seq<Item<Fn>>)
    requires StillQueued(entry, i, false, before) && before != [] && before[1..] <= queue
    ensures entry[i] == before[0] && entry[i + 1..] <= queue
  {
    assert entry[i..][0] == entry[i];
    forall k | 0 <= k < |entry| - i - 1
      ensures entry[i + 1..][k] == queue[k]
    {
      assert entry[i..][k + 1] == before[k + 1] == before[1..][k];
    }
  }

  lemma MidwayStarts(w: Waiting, entry: seq<Item<Fn>>, env: Meanwhile, queue: seq<Item<Fn>>, calls: seq<Fn>)
    requires |entry| == |w.queue| && entry <= queue && |queue| == |After(w, 0, env).queue|
    ensures Midway(w, entry, env, 0, false, queue, After(w, 0, env), calls, calls)
  {
    hide After;
    assert entry[0..] == entry;
  }

  /** Where the loop stands after `i` of `turns` turns. */
  lemma MidwayEnds(w: Waiting, entry: seq<Item<Fn>>, env: Meanwhile, i: nat, done: bool, queue: seq<Item<Fn>>,
                   now: Waiting, called: seq<Fn>, calls: seq<Fn>, turns: nat)
    requires Midway(w, entry, env, i, done, queue, now, called, calls) && i <= turns &&
             (done || queue == [] || i == turns)
    ensures i == TurnsMade(w, env, turns) && now == After(w, i, env) && calls == called + CallsMade(w, env, turns)
    ensures done || queue == [] <==> !Continues(w, env, i)
    ensures w.queue != [] && turns >= |w.queue| ==>
              i == |w.queue| && !Continues(w, env, i) && CallsMade(w, env, turns) == w.queue
  {
    hide After;
    if entry != [] {
      assert |entry| - i == |entry[i..]|;
    }
    if i < turns {
      TurnsStay(w, env, i, turns);
    }
    if w.queue != [] && turns >= |w.queue| {
      EntryTurns(w, env, |w.queue|);
      TurnsStay(w, env, |w.queue|, turns);
      assert w.queue[..|w.queue|] == w.queue;
    }
  }

  lemma Appended(queue: seq<Item<Fn>>, free: seq<Item<Fn>>, item: Item<Fn>)
    requires Distinct(queue) && Disjoint(queue, free) && item !in queue && item !in free
    ensures Distinct(queue + [item]) && Disjoint(queue + [item], free)
  {
  }

  class Scheduler {
    var first: Item?<Fn>
    var last: Item?<Fn>
    var unused: Item?<Fn>
    var count: int
    ghost var queue: seq<Item<Fn>>
    ghost var free: seq<Item<Fn>>
    /** All items allocated so far. */
    ghost var items: set<Item<Fn>>
    /** All calls made so far. */
    ghost var calls: seq<Fn>

    /** Two chains that share no item. */
    ghost predicate Linked()
      reads `first, `last, `unused, `count, `queue, `free, `items, queue`next, free`next
    {
      && Chained(queue, first) && last == At(queue, |queue| - 1) && Distinct(queue)
      && Chained(free, unused) && Distinct(free)
      && Disjoint(queue, free) && (forall n :: n in queue ==> n in items) && (forall n :: n in free ==> n in items)
    }

    ghost predicate Valid()
      reads `first, `last, `unused, `count, `queue, `free, `items, queue`next, free`next
    {
      Linked() && count == |queue| + |free| <= MAX_COUNT
    }

    ghost function Value(): Waiting
      reads `queue, `free, queue`value
    {
      Waiting(Values(queue), |free|)
    }

    constructor ()
      ensures Valid() && Value() == Waiting([], 0) && calls == []
    {
      first, last, unused, count := null, null, null, 0;
      queue, free, items, calls := [], [], {}, [];
    }

    /** `get_fn_unsafe`. */
    method GetFn(memory: bool) returns (item: Item?<Fn>)
      requires Valid()
      modifies `unused, `count, `free, `items
      ensures Linked() && count == |queue| + |free| + (if item == null then 0 else 1) <= MAX_COUNT
      ensures item == null <==> old(|free|) == 0 && !(old(|queue|) < MAX_COUNT && memory)
      ensures |free| == if old(|free|) > 0 then old(|free|) - 1 else 0
      ensures item != null ==> item !in queue && item !in free && item in items
      ensures fresh(items - old(items))
    {
      item := null;
      if unused != null {
        TailChained(free, unused);
        item := unused;
        unused := unused.next;
        free := free[1..];
      } else {
        assert free == [];
        if count < MAX_COUNT && memory {
          item := new Item(EMPTY);
          count := count + 1;
          items := items + {item};
        }
      }
    }

    /** `recycle_fn_unsafe`. */
    method Recycle(fn: Item<Fn>)
      requires Linked() && fn !in queue && fn !in free && fn in items
      modifies `unused, `free, fn
      ensures Linked() && free == [fn] + old(free) && fn.value == EMPTY
    {
      fn.value := EMPTY;
      fn.next := unused;
      unused := fn;
      free := [fn] + free;
      assert forall i :: 0 < i < |free| ==> free[i] == old(free)[i - 1];
    }

    /** The item goes to the end of the queue. */
    method Append(item: Item<Fn>)
      requires Linked() && item !in queue && item !in free && item in items && item.next == null
      modifies `first, `last, `queue, queue`next
      ensures Linked() && queue == old(queue) + [item]
    {
      hide Chained;
      hide Distinct;
      Appended(queue, free, item);
      EndsOf(queue, first, item);
      if first != null {
        assert last in queue && last !in free;
        LinkLast(last, item, queue, first);
      } else {
        first := item;
      }
      last := item;
      queue := queue + [item];
    }

    /** `schedule_function`. */
    method ScheduleFunction(r: Request) returns (ok: bool)
      requires Valid()
      modifies `first, `last, `unused, `count, `queue, `free, `items, items
      ensures Valid() && Value() == Scheduled(old(Value()), r) && ok == Accepts(old(Value()), r)
      ensures old(queue) <= queue
      ensures fresh(items - old(items))
    {
      hide Values;
      hide Linked;
      if r.fn == EMPTY {
        return false;
      }
      var item := GetFn(r.memory);
      if item == null {
        return false;
      }
      item.value := r.fn;
      item.next := null;
      ghost var before := queue;
      Append(item);
      ValuesWith(before, item);
      return true;
    }

    /** Functions scheduled while interrupts are allowed. */
    method Interrupts(rs: seq<Request>)
      requires Valid()
      modifies `first, `last, `unused, `count, `queue, `free, `items, items
      ensures Valid() && Value() == ScheduledAll(old(Value()), rs)
      ensures old(queue) <= queue
      ensures fresh(items - old(items))
    {
      hide Linked;
      hide Scheduled;
      hide Accepts;
      assert rs[..0] == [];
      for i := 0 to |rs|
        invariant Valid() && Value() == ScheduledAll(old(Value()), rs[..i])
        invariant old(queue) <= queue
        invariant fresh(items - old(items))
      {
        var _ := ScheduleFunction(rs[i]);
        assert rs[..i + 1][..i] == rs[..i];
      }
      assert rs[..|rs|] == rs;
    }

    /** The locked part of the loop: the first item is recycled. */
    method RemoveFirst()
      requires Valid() && queue != []
      modifies `first, `last, `unused, `queue, `free, items
      ensures Valid() && Value() == Removed(old(Value()))
      ensures queue == old(queue)[1..] && free == [old(first)] + old(free)
    {
      hide Values;
      TailChained(queue, first);
      var toRecycle := first;
      if last == first {
        last := null;
      }
      first := first.next;
      queue := queue[1..];
      Recycle(toRecycle);
      assert Values(queue) == old(Values(queue))[1..];
    }

    lemma Ends()
      requires Linked()
      ensures (first == null <==> queue == []) && first == At(queue, 0) && last == At(queue, |queue| - 1) &&
              Distinct(queue)
      ensures queue != [] ==> first.value == Values(queue)[0]
    {
    }

    /** One turn of the loop: a call, during which `during` is scheduled, the removal, and what `later` schedules. */
    method Turn(stop: Item?<Fn>, during: seq<Request>, later: seq<Request>) returns (done: bool)
      requires Valid() && first != null && queue != []
      modifies this, items
      ensures Valid() && Value() == ScheduledAll(Removed(ScheduledAll(old(Value()), during)), later)
      ensures calls == old(calls) + [old(Values(queue)[0])] && done == (old(queue)[0] == stop)
      ensures old(queue)[1..] <= queue
      ensures fresh(items - old(items))
    {
      hide Values;
      hide Linked;
      hide ScheduledAll;
      hide Removed;
      Ends();
      done := first == stop;
      calls := calls + [first.value];
      Interrupts(during);
      assert queue[0] == old(queue)[0];
      Ends();
      RemoveFirst();
      Interrupts(later);
    }

    /**
      `run_scheduled_functions`, watched for `turns` turns of its loop; `over` says that the loop has ended. If
      functions wait at entry, exactly these are called, once each and in order, whatever is scheduled meanwhile, the
      loop ends with them, and those scheduled later wait.
    */
    method RunScheduledFunctions(env: Meanwhile, turns: nat) returns (over: bool)
      requires Valid()
      modifies this, items
      ensures Valid() && Value() == After(old(Value()), TurnsMade(old(Value()), env, turns), env)
      ensures calls == old(calls) + CallsMade(old(Value()), env, turns)
      ensures over == !Continues(old(Value()), env, TurnsMade(old(Value()), env, turns))
      ensures old(queue) != [] && turns >= |old(queue)| ==>
                over && calls == old(calls) + old(Values(queue)) && Value() == After(old(Value()), |old(queue)|, env)
    {
      hide Values;
      hide Linked;
      hide Distinct;
      hide Midway;
      hide After;
      hide ScheduledAll;
      hide Removed;
      hide TurnsMade;
      hide CallsMade;
      hide Continues;
      ghost var w, entry, called := Value(), queue, calls;
      var i := 0;
      var stop, done := last, false;
      Ends();
      Interrupts(env(0));
      Ends();
      AfterStarts(w, env);
      MidwayStarts(w, entry, env, queue, calls);
      while first != null && !done && i < turns
        invariant Valid() && (first == null <==> queue == []) && i <= turns
        invariant Midway(w, entry, env, i, done, queue, Value(), called, calls)
        invariant fresh(items - old(items))
        decreases turns - i
      {
        ghost var queue0, now0, calls0 := queue, Value(), calls;
        done := Turn(stop, env(2 * i + 1), env(2 * i + 2));
        MidwayStep(w, entry, env, i, queue0, now0, called, calls0, queue, Value(), calls);
        Ends();
        i := i + 1;
      }
      MidwayEnds(w, entry, env, i, done, queue, Value(), called, calls, turns);
      over := first == null || done;
    }
  }
}
