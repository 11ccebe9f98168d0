/** Which requests are accepted, in terms of what has happened since the start. */
module ScheduleHistory {
  import opened Schedule

  /** A request, or the first function is done. */
  datatype Event = Ask(r: Request) | Done

  function Happen(w: Waiting, e: Event): Waiting {
    match e
    case Ask(r) => Scheduled(w, r)
    case Done => Removed(w)
  }

  /** What waits after these events. */
  function History(es: seq<Event>): Waiting {
    if es == [] then Waiting([], 0) else Happen(History(es[..|es| - 1]), es[|es| - 1])
  }

  /** The greatest number of functions that have waited at once. */
  function HighWater(es: seq<Event>): (n: nat)
    ensures n >= |History(es).queue|
  {
    var now := |History(es).queue|;
    if es == [] then now else
    var before := HighWater(es[..|es| - 1]);
    if now > before then now else before
  }

  /** There are as many items, idle ones included, as functions have waited at once, and never more than 32. */
  lemma {:induction false} ItemsAreHighWater(es: seq<Event>)
    ensures var w := History(es); |w.queue| + w.idle == HighWater(es) <= MAX_COUNT
  {
    if es != [] {
      ItemsAreHighWater(es[..|es| - 1]);
    }
  }

  /**
    An empty function is always refused; any other is accepted if and only if fewer wait than have waited before, or
    fewer than 32 and memory can be had.
  */
  lemma AcceptedExactly(es: seq<Event>, r: Request)
    ensures var w := History(es);
            var accepted := r.fn != 0 && (|w.queue| < HighWater(es) || (|w.queue| < 32 && r.memory));
            && Accepts(w, r) == accepted
            && History(es + [Ask(r)]).queue == w.queue + if accepted then [r.fn] else []
  {
    ItemsAreHighWater(es);
    assert (es + [Ask(r)])[..|es|] == es;
  }
}
