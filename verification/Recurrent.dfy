/**
  The list of functions called again and again until they return false, from `Schedule.cpp`. Interrupts and the
  functions called may register more functions wherever interrupts are not locked out.
*/
module Recurrent {
  import opened Bytes
  import opened PolledTimeout
  import opened Chain
  import Schedule

  type Fn = Schedule.Fn

  /** What the assertion in `schedule_recurrent_function_us` lets through. */
  type Interval = w: word | w < NEVER_EXPIRES

  /** A registered function, its timer, and whether it has an alarm. */
  datatype Entry = Entry(fn: Fn, timer: Timer, alarm: bool)

  /** One call of `schedule_recurrent_function_us`, at clock reading `now`. */
  datatype Registration = Registration(fn: Fn, repeat: Interval, alarm: bool, now: word, memory: bool)

  /**
    What the loop meets at one function: the clock, the alarm, the function's answer, and what is registered meanwhile.
  */
  datatype Visit = Visit(now: word, rings: bool, again: bool, during: seq<Registration>, later: seq<Registration>)

  /** All that happens around one run: what is registered before the first visit, and the visits. */
  datatype Environment = Environment(start: seq<Registration>, visits: nat -> Visit)

  // ----- one function

  function NewEntry(mhz: Frequency, r: Registration): Entry
  {
    var u := TimeFastMicros(mhz);
    Units(mhz);
    Entry(r.fn, Timer(ToTicks(u, r.repeat) % 0x1_0000_0000, r.now, r.repeat > TimeMax(u)), r.alarm)
  }

  predicate Accepted(r: Registration) {
    r.fn != Schedule.EMPTY && r.memory
  }

  function Registered(mhz: Frequency, rs: seq<Registration>): seq<Entry>
  {
    if rs == [] then [] else
    var n := |rs| - 1;
    Registered(mhz, rs[..n]) + if Accepted(rs[n]) then [NewEntry(mhz, rs[n])] else []
  }

  predicate IsCalled(e: Entry, v: Visit) {
    (e.alarm && v.rings) || Polled(e.timer, v.now).expired
  }

  predicate IsRemoved(e: Entry, v: Visit) {
    IsCalled(e, v) && !v.again
  }

  function Checked(e: Entry, v: Visit): Entry {
    e.(timer := Polled(e.timer, v.now).timer)
  }

  // ----- a run over the list

  /** What is left of the first `n` functions. */
  function Kept(es: seq<Entry>, env: Environment, n: nat): seq<Entry>
    requires n <= |es|
  {
    if n == 0 then [] else
    Kept(es, env, n - 1) + if IsRemoved(es[n - 1], env.visits(n - 1)) then []
      else [Checked(es[n - 1], env.visits(n - 1))]
  }

  /** What is registered while the first `n` functions are visited. */
  function Meanwhile(mhz: Frequency, env: Environment, n: nat): seq<Entry>
  {
    if n == 0 then Registered(mhz, env.start) else
    Meanwhile(mhz, env, n - 1) + Registered(mhz, env.visits(n - 1).during) + Registered(mhz, env.visits(n - 1).later)
  }

  /** The functions called among the first `n`. */
  function CallsOf(es: seq<Entry>, env: Environment, n: nat): seq<Fn>
    requires n <= |es|
  {
    if n == 0 then [] else
    CallsOf(es, env, n - 1) + if IsCalled(es[n - 1], env.visits(n - 1)) then [es[n - 1].fn] else []
  }

  /** The list after `n` visits: the kept, those still to visit, and those registered meanwhile. */
  function ListAfter(mhz: Frequency, es: seq<Entry>, env: Environment, n: nat): seq<Entry>
    requires n <= |es|
  {
    Kept(es, env, n) + es[n..] + Meanwhile(mhz, env, n)
  }

  /** Without the `k`th, if it is to be removed. */
  function Taken<T>(s: seq<T>, k: nat, remove: bool): seq<T>
    requires k < |s|
  {
    if remove then s[..k] + s[k + 1..] else s
  }

  lemma TakenAppend<T>(s: seq<T>, t: seq<T>, k: nat, remove: bool)
    requires k < |s|
    ensures Taken(s + t, k, remove) == Taken(s, k, remove) + t && Taken(s, k, false) == s
  {
  }

  lemma TakenPrefix<T>(s: seq<T>, r: seq<T>, k: nat, remove: bool)
    requires k < |s| && s <= r
    ensures Taken(s, k, remove) <= Taken(r, k, remove) && Taken(s, k, false) == s && Taken(r, k, false) == r
  {
  }

  /** The list `es` after a visit to the `k`th function. */
  function Visited(mhz: Frequency, es: seq<Entry>, v: Visit, k: nat): seq<Entry>
    requires k < |es|
  {
    Taken(es[k := Checked(es[k], v)], k, IsRemoved(es[k], v)) + Registered(mhz, v.during) + Registered(mhz, v.later)
  }

  lemma TimeoutsKept(es: seq<Entry>, v: Visit, k: nat)
    requires k < |es|
    ensures Timeouts(es[k := Checked(es[k], v)]) == Timeouts(es)
  {
  }

  function Timeouts(es: seq<Entry>): (ts: seq<word>)
    ensures |ts| == |es| && forall i :: 0 <= i < |ts| ==> ts[i] == es[i].timer.timeout
  {
    seq(|es|, i requires 0 <= i < |es| => es[i].timer.timeout)
  }

  function Functions(es: seq<Entry>): (fs: seq<Fn>)
    ensures |fs| == |es|
  {
    seq(|es|, i requires 0 <= i < |es| => es[i].fn)
  }

  /** Which of the first `n` functions are kept. */
  function Survivors(es: seq<Entry>, env: Environment, n: nat): (at: seq<nat>)
    requires n <= |es|
    ensures forall i :: 0 <= i < |at| ==> at[i] < n
  {
    if n == 0 then [] else
    Survivors(es, env, n - 1) + if IsRemoved(es[n - 1], env.visits(n - 1)) then [] else [n - 1]
  }

  /** A run keeps, in their order, ... */
  lemma {:induction false} KeptInOrder(es: seq<Entry>, env: Environment, n: nat)
    requires n <= |es|
    ensures var at, kept := Survivors(es, env, n), Kept(es, env, n);
            && |kept| == |at|
            && (forall i :: 0 <= i < |at| ==> kept[i] == Checked(es[at[i]], env.visits(at[i])))
            && (forall i, j :: 0 <= i < j < |at| ==> at[i] < at[j])
  {
    if n > 0 {
      hide IsRemoved;
      hide Checked;
      KeptInOrder(es, env, n - 1);
    }
  }

  /** ... exactly the functions that were not called or returned true. */
  lemma {:induction false} KeptExactly(es: seq<Entry>, env: Environment, n: nat, i: nat)
    requires n <= |es|
    ensures i in Survivors(es, env, n) <==> i < n && (IsCalled(es[i], env.visits(i)) ==> env.visits(i).again)
  {
    if n > 0 {
      hide IsCalled;
      KeptExactly(es, env, n - 1, i);
    }
  }

  /** The list after one more visit, to the function behind the kept ones. */
  lemma ListStep(mhz: Frequency, es: seq<Entry>, env: Environment, n: nat)
    requires n < |es|
    ensures var list, k := ListAfter(mhz, es, env, n), |Kept(es, env, n)|;
            && k < |list| && list[k] == es[n]
            && ListAfter(mhz, es, env, n + 1) == Visited(mhz, list, env.visits(n), k)
    ensures |Kept(es, env, n + 1)| == |Kept(es, env, n)| + if IsRemoved(es[n], env.visits(n)) then 0 else 1
  {
    KeptNext(es, env, n);
    MeanwhileNext(mhz, env, n);
    hide IsRemoved;
    hide Checked;
    hide Registered;
    hide Taken;
    hide Kept;
    hide Meanwhile;
    var kept, e, v, more := Kept(es, env, n), es[n], env.visits(n), Meanwhile(mhz, env, n);
    var rest := es[n + 1..] + more;
    var left := if IsRemoved(e, v) then [] else [Checked(e, v)];
    ListAt(kept, es, n, more, Checked(e, v));
    TakenMiddle(kept, Checked(e, v), rest, IsRemoved(e, v));
    Regroup(kept + left, es[n + 1..], more, Registered(mhz, v.during), Registered(mhz, v.later));
  }

  lemma Regroup<T>(a: seq<T>, b: seq<T>, c: seq<T>, d: seq<T>, e: seq<T>)
    ensures a + b + (c + d + e) == a + (b + c) + d + e
  {
  }

  lemma KeptNext(es: seq<Entry>, env: Environment, n: nat)
    requires n < |es|
    ensures Kept(es, env, n + 1) == Kept(es, env, n) + if IsRemoved(es[n], env.visits(n)) then []
            else [Checked(es[n], env.visits(n))]
  {
  }

  lemma MeanwhileNext(mhz: Frequency, env: Environment, n: nat)
    ensures Meanwhile(mhz, env, n + 1) ==
            Meanwhile(mhz, env, n) + Registered(mhz, env.visits(n).during) + Registered(mhz, env.visits(n).later)
  {
  }

  lemma ListAt<T>(kept: seq<T>, es: seq<T>, n: nat, more: seq<T>, now: T)
    requires n < |es|
    ensures var list := kept + es[n..] + more;
            |kept| < |list| && list[|kept|] == es[n] && list[|kept| := now] == kept + [now] + (es[n + 1..] + more)
  {
  }

  lemma TakenMiddle<T>(s: seq<T>, x: T, t: seq<T>, remove: bool)
    ensures Taken(s + [x] + t, |s|, remove) == s + (if remove then [] else [x]) + t
  {
    var all := s + [x] + t;
    assert all[..|s|] == s && all[|s| + 1..] == t;
  }

  // ----- the linked list

  lemma ValuesWithout(items: seq<Item<Entry>>, k: nat)
    requires k < |items|
    ensures Without(items, k) == Taken(items, k, true) && Values(Without(items, k)) == Taken(Values(items), k, true)
  {
    hide Values;
    ValuesOfWithout(items, k);
  }

  lemma LastWithout(items: seq<Item<Entry>>, k: nat)
    requires k < |items|
    ensures var r := Without(items, k);
            At(r, |r| - 1) == if k == |items| - 1 then At(items, k - 1) else items[|items| - 1]
  {
  }

  // ----- the loop

  ghost function Reached(es: seq<Entry>, env: Environment, i: nat): nat {
    if i <= |es| then |Kept(es, env, i)| else 0
  }

  /** Where the loop is after `i` visits, `k` functions being kept; `entry` are the items of its start. */
  ghost predicate Walking(entry: seq<Item<Entry>>, i: nat, items: seq<Item<Entry>>, k: nat, done: bool,
                          prev: Item?<Entry>, current: Item?<Entry>)
  {
    && i <= |entry| && Distinct(entry) && done == (i == |entry|)
    && k <= |items| && prev == At(items, k - 1) && entry[i..] <= items[k..]
    && (current == null ==> done) && (!done ==> current == At(items, k))
  }

  /** What the loop has done after `i` visits; `es`, `checked` and `called` are from its start. */
  ghost predicate Running(mhz: Frequency, es: seq<Entry>, env: Environment, i: nat, list: seq<Entry>,
                          checked: seq<Fn>, checks: seq<Fn>, called: seq<Fn>, calls: seq<Fn>)
  {
    && i <= |es| && list == ListAfter(mhz, es, env, i)
    && checks == checked + Functions(es)[..i] && calls == called + CallsOf(es, env, i)
  }

  lemma WalkStarts(entry: seq<Item<Entry>>, items: seq<Item<Entry>>)
    requires |entry| > 0 && Distinct(entry) && entry <= items
    ensures Walking(entry, 0, items, 0, false, null, At(entry, 0))
  {
    assert entry[0..] == entry && items[0..] == items;
  }

  lemma RunStarts(mhz: Frequency, es: seq<Entry>, env: Environment, checks: seq<Fn>, calls: seq<Fn>)
    ensures Running(mhz, es, env, 0, es + Registered(mhz, env.start), checks, checks, calls, calls)
    ensures Reached(es, env, 0) == 0
  {
    hide Registered;
    assert es[0..] == es;
  }

  lemma WalkReaches(entry: seq<Item<Entry>>, i: nat, items: seq<Item<Entry>>, k: nat, prev: Item?<Entry>,
                    current: Item?<Entry>)
    requires Walking(entry, i, items, k, false, prev, current)
    ensures i < |entry| && k < |items| && items[k] == current == entry[i] && prev == At(items, k - 1)
    ensures current == At(entry, |entry| - 1) <==> i + 1 == |entry|
  {
    assert entry[i..][0] == entry[i] && items[k..][0] == items[k];
  }

  lemma WalkStep(entry: seq<Item<Entry>>, i: nat, items: seq<Item<Entry>>, k: nat, prev: Item?<Entry>,
                 current: Item?<Entry>, gone: bool, items': seq<Item<Entry>>, prev': Item?<Entry>,
                 current': Item?<Entry>)
    requires Walking(entry, i, items, k, false, prev, current)
    requires k < |items| && Taken(items, k, gone) <= items' && prev' == (if gone then prev else current)
    requires if current' == null then k + 1 == |items| else current' == At(items', if gone then k else k + 1)
    ensures Walking(entry, i + 1, items', if gone then k else k + 1, i + 1 == |entry|, prev', current')
  {
    WalkReaches(entry, i, items, k, prev, current);
    ItemsStep(entry, i, items, k, gone, items');
    hide Taken;
    hide Distinct;
  }

  lemma ItemsStep(entry: seq<Item<Entry>>, i: nat, items: seq<Item<Entry>>, k: nat, gone: bool,
                  items': seq<Item<Entry>>)
    requires i < |entry| && k < |items| && entry[i..] <= items[k..] && Taken(items, k, gone) <= items'
    ensures var k' := if gone then k else k + 1;
            && k' <= |items'| && entry[i + 1..] <= items'[k'..]
            && At(items', k' - 1) == if gone then At(items, k - 1) else items[k]
    ensures k + 1 == |items| ==> i + 1 == |entry|
  {
    var k' := if gone then k else k + 1;
    forall j | 0 <= j < |entry| - i - 1
      ensures entry[i + 1..][j] == items'[k'..][j]
    {
      assert entry[i..][j + 1] == items[k..][j + 1] == items[k + 1 + j];
      assert Taken(items, k, gone)[k' + j] == items[k + 1 + j];
    }
  }

  lemma RunStep(mhz: Frequency, es: seq<Entry>, env: Environment, i: nat, list: seq<Entry>,
                checked: seq<Fn>, checks: seq<Fn>, called: seq<Fn>, calls: seq<Fn>)
    requires Running(mhz, es, env, i, list, checked, checks, called, calls) && i < |es|
    ensures var k, v := Reached(es, env, i), env.visits(i);
            && k < |list| && list[k] == es[i]
            && Running(mhz, es, env, i + 1, Visited(mhz, list, v, k), checked, checks + [es[i].fn],
                       called, calls + if IsCalled(es[i], v) then [es[i].fn] else [])
            && Reached(es, env, i + 1) == if IsRemoved(es[i], v) then k else k + 1
  {
    CallsNext(es, env, i);
    FunctionsNext(es, i);
    ListStep(mhz, es, env, i);
    hide Kept;
    hide ListAfter;
    hide Visited;
    hide IsRemoved;
    hide IsCalled;
    hide CallsOf;
    hide Functions;
  }

  lemma CallsNext(es: seq<Entry>, env: Environment, i: nat)
    requires i < |es|
    ensures CallsOf(es, env, i + 1) == CallsOf(es, env, i) + if IsCalled(es[i], env.visits(i)) then [es[i].fn] else []
  {
  }

  lemma FunctionsNext(es: seq<Entry>, i: nat)
    requires i < |es|
    ensures Functions(es)[..i + 1] == Functions(es)[..i] + [es[i].fn]
  {
  }

  lemma WalkEnds(entry: seq<Item<Entry>>, i: nat, items: seq<Item<Entry>>, k: nat, done: bool, prev: Item?<Entry>,
                 current: Item?<Entry>)
    requires Walking(entry, i, items, k, done, prev, current) && (current == null || done)
    ensures i == |entry|
  {
  }

  lemma RunEnds(mhz: Frequency, es: seq<Entry>, env: Environment, list: seq<Entry>,
                checked: seq<Fn>, checks: seq<Fn>, called: seq<Fn>, calls: seq<Fn>)
    requires Running(mhz, es, env, |es|, list, checked, checks, called, calls)
    ensures list == ListAfter(mhz, es, env, |es|) && checks == checked + Functions(es) &&
            calls == called + CallsOf(es, env, |es|)
  {
    assert Functions(es)[..|es|] == Functions(es);
  }

  class Recurrent {
    const mhz: Frequency
    var first: Item?<Entry>
    var last: Item?<Entry>
    var grain: nat
    var fence: bool
    ghost var items: seq<Item<Entry>>
    /** All items allocated so far. */
    ghost var all: set<Item<Entry>>
    /** The functions checked and the functions called so far. */
    ghost var checks: seq<Fn>
    ghost var calls: seq<Fn>

    ghost predicate Valid()
      reads `first, `last, `items, `all, items`next
    {
      && Chained(items, first) && last == At(items, |items| - 1) && Distinct(items)
      && (forall n :: n in items ==> n in all)
    }

    ghost function Contents(): (es: seq<Entry>)
      reads `items, items`value
      ensures |es| == |items|
    {
      Values(items)
    }

    constructor (mhz: Frequency)
        ensures Valid() && Contents() == [] && grain == 0 && !fence && this.mhz == mhz
    {
      this.mhz := mhz;
      first, last, grain, fence := null, null, 0, false;
      items, all, checks, calls := [], {}, [], [];
    }

    /** The item goes to the end of the list. */
    method Append(item: Item<Entry>)
      requires Valid() && item !in items && item in all && item.next == null
      modifies `first, `last, `items, items`next
      ensures Valid() && items == old(items) + [item]
    {
      hide Chained;
      EndsOf(items, first, item);
      if last != null {
        LinkLast(last, item, items, first);
      } else {
        first := item;
      }
      last := item;
      items := items + [item];
    }

    /** `schedule_recurrent_function_us`. */
    method Register(r: Registration) returns (ok: bool)
      requires Valid()
      modifies `first, `last, `items, `all, `grain, all`next
      ensures Valid() && ok == Accepted(r) && grain == (if ok then 0 else old(grain))
      ensures old(items) <= items && fresh(all - old(all))
      ensures Contents() == old(Contents()) + if ok then [NewEntry(mhz, r)] else []
    {
      hide Values;
      hide NewEntry;
      hide Chained;
      if r.fn == Schedule.EMPTY || !r.memory {
        return false;
      }
      var item := new Item(NewEntry(mhz, r));
      all := all + {item};
      ghost var before := items;
      Append(item);
      ValuesWith(before, item);
      grain := 0;
      return true;
    }

    /** Functions registered while interrupts are allowed. */
    method Interrupts(rs: seq<Registration>)
      requires Valid()
      modifies `first, `last, `items, `all, `grain, all`next
      ensures Valid() && old(items) <= items && fresh(all - old(all))
      ensures Contents() == old(Contents()) + Registered(mhz, rs)
      ensures grain == 0 || (grain == old(grain) && Contents() == old(Contents()))
    {
      hide Values;
      hide NewEntry;
      hide Valid;
      hide Accepted;
      assert rs[..0] == [];
      for i := 0 to |rs|
        invariant Valid() && old(items) <= items && fresh(all - old(all))
        invariant Contents() == old(Contents()) + Registered(mhz, rs[..i])
        invariant grain == 0 || (grain == old(grain) && Registered(mhz, rs[..i]) == [])
      {
        var _ := Register(rs[i]);
        assert rs[..i + 1][..i] == rs[..i];
      }
      assert rs[..|rs|] == rs;
    }

    /** The function is unlinked, with the last pointer kept right. */
    method TakeOut(prev: Item?<Entry>, toDitch: Item<Entry>, ghost k: nat) returns (current: Item?<Entry>)
      requires Valid() && k < |items| && items[k] == toDitch && prev == At(items, k - 1)
      modifies `first, `last, `items, items`next
      ensures Valid() && items == Without(old(items), k) && current == At(items, k)
    {
      hide Chained;
      if k != |items| - 1 {
        Apart(items, k, |items| - 1);
      }
      hide Distinct;
      hide Without;
      WithoutDistinct(items, k);
      LastWithout(items, k);
      if last == toDitch {
        last := prev;
      }
      first, current := Unlink(first, prev, toDitch, items, k);
      items := Without(items, k);
    }

    /** The locked part of the loop: the function is taken out. */
    method Ditch(prev: Item?<Entry>, toDitch: Item<Entry>, ghost k: nat) returns (current: Item?<Entry>)
      requires Valid() && k < |items| && items[k] == toDitch && prev == At(items, k - 1)
      modifies `first, `last, `items, `grain, all`next
      ensures Valid() && items == Taken(old(items), k, true) && grain == 0
      ensures Contents() == Taken(old(Contents()), k, true)
      ensures current == At(items, k)
    {
      hide Values;
      hide Chained;
      hide Distinct;
      hide Without;
      hide Taken;
      ghost var before := items;
      current := TakeOut(prev, toDitch, k);
      ValuesWithout(before, k);
      grain := 0;
    }

    lemma Ends()
      requires Valid()
      ensures (first == null <==> Contents() == []) && first == At(items, 0) && last == At(items, |items| - 1) &&
              Distinct(items)
    {
    }

    lemma NextIs(k: nat)
      requires Valid() && k < |items|
      ensures items[k].next == At(items, k + 1) && items[k] in all
    {
    }

    /** The alarm and the timer of the `k`th function, and the call if one of them says so. */
    method Check(current: Item<Entry>, v: Visit, ghost k: nat) returns (called: bool)
      requires Valid() && k < |items| && items[k] == current
      modifies current`value, `checks, `calls
      ensures Valid() && Contents() == old(Contents())[k := Checked(old(Contents())[k], v)]
      ensures called == IsCalled(old(Contents())[k], v)
      ensures checks == old(checks) + [old(Contents())[k].fn]
      ensures calls == old(calls) + if called then [old(Contents())[k].fn] else []
    {
      hide Values;
      hide Polled;
      hide Chained;
      var wakeup := current.value.alarm && v.rings;
      var poll := Polled(current.value.timer, v.now);
      called := wakeup || poll.expired;
      checks := checks + [current.value.fn];
      calls := calls + if called then [current.value.fn] else [];
      current.value := current.value.(timer := poll.timer);
    }

    /** The rest of a turn, after the check. */
    method Advance(prev: Item?<Entry>, current: Item<Entry>, remove: bool, v: Visit, ghost k: nat)
      returns (prev': Item?<Entry>, next: Item?<Entry>)
      requires Valid() && k < |items| && items[k] == current && prev == At(items, k - 1)
      modifies `first, `last, `items, `all, `grain, all`next
      ensures Valid() && fresh(all - old(all)) && Taken(old(items), k, remove) <= items
      ensures Contents() == Taken(old(Contents()), k, remove) + Registered(mhz, v.during) + Registered(mhz, v.later)
      ensures prev' == (if remove then prev else current)
      ensures if next == null then k + 1 == |old(items)| else next == At(items, if remove then k else k + 1)
      ensures grain == 0 || (grain == old(grain) && Contents() == old(Contents()))
    {
      hide Values;
      hide Valid;
      hide Registered;
      Interrupts(v.during);
      TakenPrefix(old(items), items, k, remove);
      TakenAppend(old(Contents()), Registered(mhz, v.during), k, remove);
      hide Taken;
      if remove {
        prev' := prev;
        next := Ditch(prev, current, k);
      } else {
        NextIs(k);
        prev', next := current, current.next;
      }
      Interrupts(v.later);
    }

    /** One turn of the loop. */
    method Turn(prev: Item?<Entry>, current: Item<Entry>, v: Visit, ghost k: nat)
      returns (prev': Item?<Entry>, next: Item?<Entry>)
      requires Valid() && k < |items| && items[k] == current && prev == At(items, k - 1)
      modifies `first, `last, `items, `all, `grain, `checks, `calls, all
      ensures Valid() && fresh(all - old(all)) && Taken(old(items), k, IsRemoved(old(Contents())[k], v)) <= items
      ensures Contents() == Visited(mhz, old(Contents()), v, k)
      ensures checks == old(checks) + [old(Contents())[k].fn]
      ensures calls == old(calls) + if IsCalled(old(Contents())[k], v) then [old(Contents())[k].fn] else []
      ensures prev' == if IsRemoved(old(Contents())[k], v) then prev else current
      ensures if next == null then k + 1 == |old(items)|
              else next == At(items, if IsRemoved(old(Contents())[k], v) then k else k + 1)
      ensures grain == 0 || (grain == old(grain) && Timeouts(Contents()) == old(Timeouts(Contents())))
    {
      hide Values;
      hide Valid;
      hide Polled;
      hide Registered;
      hide IsCalled;
      hide Taken;
      hide Checked;
      hide Timeouts;
      TimeoutsKept(Contents(), v, k);
      NextIs(k);
      var called := Check(current, v, k);
      prev', next := Advance(prev, current, called && !v.again, v, k);
    }

    /**
      `run_scheduled_recurrent_functions`: each function registered at entry is checked once, those called that return
      false are removed, the others keep their order, and those registered meanwhile wait at the end.
    */
    method RunScheduledRecurrentFunctions(env: Environment)
      requires Valid()
      modifies this, all
      ensures Valid() && fence == old(fence)
      ensures old(fence) || old(Contents()) == [] ==>
                Contents() == old(Contents()) && checks == old(checks) && calls == old(calls) && grain == old(grain)
      ensures !old(fence) && old(Contents()) != [] ==>
                && Contents() == ListAfter(mhz, old(Contents()), env, |old(Contents())|)
                && checks == old(checks) + Functions(old(Contents()))
                && calls == old(calls) + CallsOf(old(Contents()), env, |old(Contents())|)
      ensures grain == 0 || (grain == old(grain) && Timeouts(Contents()) == old(Timeouts(Contents())))
    {
      hide *;
      ghost var es, entry, checked, called := Contents(), items, checks, calls;
      Ends();
      var current := first;
      if current == null || fence {
        return;
      }
      fence := true;
      var prev, stop, done, i := null, last, false, 0;
      Interrupts(env.start);
      WalkStarts(entry, items);
      RunStarts(mhz, es, env, checks, calls);
      while current != null && !done
        invariant Valid() && fence && fresh(all - old(all)) && i <= |es|
        invariant Walking(entry, i, items, Reached(es, env, i), done, prev, current)
        invariant Running(mhz, es, env, i, Contents(), checked, checks, called, calls)
        invariant grain == 0 || (grain == old(grain) && Timeouts(Contents()) == old(Timeouts(Contents())))
        decreases |es| - i
      {
        ghost var k, items0, prev0, current0 := Reached(es, env, i), items, prev, current;
        WalkReaches(entry, i, items, k, prev, current);
        RunStep(mhz, es, env, i, Contents(), checked, checks, called, calls);
        done := current == stop;
        prev, current := Turn(prev, current, env.visits(i), k);
        WalkStep(entry, i, items0, k, prev0, current0, IsRemoved(es[i], env.visits(i)), items, prev, current);
        i := i + 1;
      }
      WalkEnds(entry, i, items, Reached(es, env, i), done, prev, current);
      RunEnds(mhz, es, env, Contents(), checked, checks, called, calls);
      fence := false;
    }
  }
}
