/**
 The idle reaper: the timer list as `WebServer` drives it, over whole runs with a clock that does not go
 back. A connection's timer expires three time slots after its last activity. Such a run is a run of the
 operations in TimerRuns.dfy.
 */
module Reaper {
  import opened TimerQueue
  import opened TimerRuns

  const TIMESLOT: int := 5
  const IDLE: int := 3 * TIMESLOT

  /** `http_create_with_timer`, `adjust_timer`, `deal_timer` and `timer_handler`, with the time of each. */
  datatype Event<T> =
    | Connect(timer: T, time: int)
    | Activity(timer: T, time: int)
    | Close(timer: T, time: int)
    | Alarm(time: int)

  /** What an event does to the list. */
  function OpOf<T>(e: Event<T>): Op<T> {
    match e
    case Connect(t, time) => Add(t, time + IDLE)
    case Activity(t, time) => Raise(t, time + IDLE)
    case Close(t, _) => Del(t)
    case Alarm(time) => Tick(time)
  }

  function Ops<T>(events: seq<Event<T>>): (ops: seq<Op<T>>)
    ensures |ops| == |events| && forall i :: 0 <= i < |ops| ==> ops[i] == OpOf(events[i])
  {
    seq(|events|, i requires 0 <= i < |events| => OpOf(events[i]))
  }

  /** The list after the events. */
  function ListAfter<T(==)>(events: seq<Event<T>>): seq<Entry<T>> {
    Run(Ops(events))
  }

  predicate CanHappen<T(==)>(q: seq<Entry<T>>, e: Event<T>) {
    match e
    case Connect(t, _) => !Live(q, t)
    case Activity(t, _) => Live(q, t)
    case Close(t, _) => Live(q, t)
    case Alarm(_) => true
  }

  predicate Monotone<T>(events: seq<Event<T>>) {
    forall i, j :: 0 <= i <= j < |events| ==> events[i].time <= events[j].time
  }

  /** The clock does not go back; each timer is created while it is not in the list, touched and closed while it is. */
  predicate Possible<T(==)>(events: seq<Event<T>>) {
    Monotone(events) &&
    (events == [] || (Possible(Front(events)) && CanHappen(ListAfter(Front(events)), Last(events))))
  }

  /** The clock has not gone back since the last event. */
  predicate NotBefore<T>(events: seq<Event<T>>, now: int) {
    events != [] ==> Last(events).time <= now
  }

  predicate Touches<T(==)>(e: Event<T>, t: T) {
    (e.Connect? || e.Activity?) && e.timer == t
  }

  /** The index of the last event that showed this connection active; -1 when there is none. */
  function LastTouch<T(==)>(events: seq<Event<T>>, t: T): (k: int)
    ensures -1 <= k < |events|
    ensures k >= 0 ==> Touches(events[k], t)
    ensures forall i :: k < i < |events| ==> !Touches(events[i], t)
  {
    if events == [] then -1
    else if Touches(Last(events), t) then |events| - 1
    else LastTouch(Front(events), t)
  }

  lemma TouchIsSet<T>(events: seq<Event<T>>, t: T)
    ensures LastTouch(events, t) == LastSet(Ops(events), t)
  {
    var k, j := LastTouch(events, t), LastSet(Ops(events), t);
    assert k >= 0 ==> Sets(Ops(events)[k], t);
    assert j >= 0 ==> Touches(events[j], t);
  }

  /** Nothing in the list expires later than a timer touched now would. */
  lemma NoneExpiresLater<T>(events: seq<Event<T>>, q: seq<Entry<T>>, now: int)
    requires Monotone(events) && NotBefore(events, now) && StablyOrdered(Ops(events), q)
    ensures forall i :: 0 <= i < |q| ==> q[i].expire <= now + IDLE
  {
    forall i | 0 <= i < |q|
      ensures q[i].expire <= now + IDLE
    {
      var k := LastSet(Ops(events), q[i].timer);
      assert Current(Ops(events), q[i]);
      assert events[k].time <= Last(events).time;
    }
  }

  /** An event that can happen is an operation that is allowed: activity never lowers an expiry. */
  lemma EventIsAllowed<T>(events: seq<Event<T>>, e: Event<T>)
    requires Monotone(events) && NotBefore(events, e.time)
    requires Legal(Ops(events)) && CanHappen(ListAfter(events), e)
    ensures Enabled(ListAfter(events), OpOf(e))
  {
    hide LastTouch, LastSet, Run, Legal;
    StableOverRuns(Ops(events));
    NoneExpiresLater(events, ListAfter(events), e.time);
  }

  lemma OpsOfMore<T>(events: seq<Event<T>>, e: Event<T>)
    ensures Ops(events + [e]) == Ops(events) + [OpOf(e)]
  {
  }

  /** One more event that can happen, by a clock that has not gone back. */
  lemma OneMoreEvent<T>(events: seq<Event<T>>, e: Event<T>)
    requires Possible(events) && CanHappen(ListAfter(events), e) && NotBefore(events, e.time)
    ensures Possible(events + [e])
  {
    var all := events + [e];
    assert Front(all) == events && Last(all) == e;
    assert forall k {:trigger all[k]} :: 0 <= k < |events| ==> all[k] == events[k] && all[k].time <= e.time by {
      assert forall k {:trigger events[k]} :: 0 <= k < |events| ==> events[k].time <= Last(events).time;
    }
  }

  /** A run of the server is a run of the list's operations. */
  lemma {:induction false} PossibleIsLegal<T>(events: seq<Event<T>>)
    requires Possible(events)
    ensures Legal(Ops(events))
    decreases |events|
  {
    if events != [] {
      var before, e := Front(events), Last(events);
      PossibleIsLegal(before);
      assert before + [e] == events;
      assert NotBefore(before, e.time);
      EventIsAllowed(before, e);
      OpsOfMore(before, e);
      OneMore(Ops(before), OpOf(e));
    }
  }

  /** The list is in the order of last activity, and each timer expires `IDLE` after it. */
  predicate InOrderOfActivity<T(==)>(events: seq<Event<T>>, q: seq<Entry<T>>) {
    && (forall i :: 0 <= i < |q| ==>
          var k := LastTouch(events, q[i].timer);
          k >= 0 && q[i].expire == events[k].time + IDLE)
    && (forall i, j :: 0 <= i < j < |q| ==> LastTouch(events, q[i].timer) < LastTouch(events, q[j].timer))
  }

  /** In every possible run the list is in the order of last activity. */
  lemma OrderOfActivity<T>(events: seq<Event<T>>)
    requires Possible(events)
    ensures InOrderOfActivity(events, ListAfter(events))
    ensures var q := ListAfter(events);
      forall i :: 0 <= i < |q| ==>
        var k := LastTouch(events, q[i].timer); k >= 0 && q[i].expire == events[k].time + 15
  {
    hide LastTouch, LastSet, Run, Legal, Possible;
    PossibleIsLegal(events);
    StableOverRuns(Ops(events));
    IsMonotone(events);
    var q := ListAfter(events);
    forall i | 0 <= i < |q|
      ensures LastTouch(events, q[i].timer) == LastSet(Ops(events), q[i].timer)
      ensures Current(Ops(events), q[i])
    {
      TouchIsSet(events, q[i].timer);
    }
    forall i, j | 0 <= i < j < |q|
      ensures LastTouch(events, q[i].timer) < LastTouch(events, q[j].timer)
    {
      assert Before(Ops(events), q[i], q[j]);
    }
  }

  lemma IsMonotone<T>(events: seq<Event<T>>)
    requires Possible(events)
    ensures Monotone(events)
  {
  }

  /**
   The reaper's promise: an alarm at time `now`, after any possible run, fires exactly the timers whose last
   activity is at least 15 seconds ago, each once, in the order of last activity, and leaves none of them.
   */
  lemma AlarmFiresExactlyTheIdle<T>(events: seq<Event<T>>, now: int)
    requires Possible(events)
    ensures var q := ListAfter(events);
      var (left, fired) := Step(q, Tick(now));
      && |fired| + |left| == |q| && fired == Timers(q[..|fired|])
      && (forall i :: 0 <= i < |q| ==>
            var k := LastTouch(events, q[i].timer);
            && k >= 0
            && (q[i].timer in fired <==> events[k].time + 15 <= now)
            && (Live(left, q[i].timer) <==> now < events[k].time + 15))
      && (forall i, j :: 0 <= i < j < |fired| ==> LastTouch(events, fired[i]) < LastTouch(events, fired[j]))
  {
    hide LastTouch, LastSet, Run, Legal, Possible, Live, Step;
    PossibleIsLegal(events);
    TickFiresExactlyTheDue(Ops(events), now);
    OrderOfActivity(events);
    var q := ListAfter(events);
    forall i | 0 <= i < |q|
      ensures LastTouch(events, q[i].timer) == LastSet(Ops(events), q[i].timer)
    {
      TouchIsSet(events, q[i].timer);
    }
  }

  /**
   With a clock that does not go back, activity on a timer always moves it to the end; for one that is neither
   first nor last that is the one case in which the unrepaired `adjust_timer` leaves a list without an end.
   */
  lemma ActivityLandsLast<T>(events: seq<Event<T>>, t: T, now: int)
    requires Possible(events) && Live(ListAfter(events), t) && NotBefore(events, now)
    ensures var q := ListAfter(events);
      var i := Find(q, t);
      i < |q| &&
      var raised := q[i := Entry(t, now + IDLE)];
      && Adjust(raised, i) == Without(q, i) + [Entry(t, now + IDLE)]
      && (BecomesLast(raised, i) <==> 0 < i && i + 1 < |q|)
  {
    hide LastTouch, LastSet, Run, Legal;
    PossibleIsLegal(events);
    var q := ListAfter(events);
    StableOverRuns(Ops(events));
    NoneExpiresLater(events, q, now);
    var i := Find(q, t);
    var raised := q[i := Entry(t, now + IDLE)];
    assert Without(raised, i) == Without(q, i);
    AdjustToLatest(raised, i);
  }

  /** With such a clock a new timer goes to the end too. */
  lemma ConnectLandsLast<T>(events: seq<Event<T>>, now: int)
    requires Possible(events) && NotBefore(events, now)
    ensures Position(ListAfter(events), now + IDLE) == |ListAfter(events)|
  {
    hide LastTouch, LastSet, Run, Legal;
    PossibleIsLegal(events);
    StableOverRuns(Ops(events));
    IsMonotone(events);
    NoneExpiresLater(events, ListAfter(events), now);
  }
}
