/**
 The part of `WebServer` that drives the timer list: it creates a timer for each connection, moves it on
 activity, and removes it when the connection ends or has been idle too long. Each method is one step of the
 reaper in Reaper.dfy; activity is one with the repaired `adjust_timer`, and as written unless the timer is
 neither first nor last.
 */
module IdleTimers {
  import opened TimerQueue
  import opened TimerRuns
  import opened TimerList
  import opened Reaper

  class WebServer {
    const timers: SortTimerList
    var userTimer: map<nat, Timer>
    ghost var history: seq<Event<Timer>>

    /** The list is linked, and it is what the events so far make of it. */
    ghost predicate Valid()
      reads this, timers, timers.nodes
    {
      timers.Valid() && timers.Recorded() && Possible(history) && timers.history == Ops(history)
    }

    ghost function State(): seq<Entry<Timer>>
      reads timers, timers.nodes
    {
      Queue(timers.nodes)
    }

    constructor ()
      ensures Valid() && history == [] && userTimer == map[] && fresh(timers) && timers.nodes == []
    {
      timers := new SortTimerList();
      userTimer := map[];
      history := [];
    }

    /**
     A new timer for descriptor `fd`, whatever the table held for it: when a descriptor is used again, the
     timer of its last connection may still be in the list.
     */
    method HttpCreateWithTimer(fd: nat, now: int)
      requires Valid() && NotBefore(history, now)
      modifies this, timers, timers.nodes
      ensures Valid()
      ensures fd in userTimer && fresh(userTimer[fd]) && userTimer == old(userTimer)[fd := userTimer[fd]]
      ensures userTimer[fd].user == fd && history == old(history) + [Connect(userTimer[fd], now)]
      ensures timers.nodes == old(timers.nodes) + [userTimer[fd]]
      ensures State() == old(State()) + [Entry(userTimer[fd], now + IDLE)]
    {
      hide Chain, Run, Legal, Possible, StablyOrdered, Sorted, Insert, Position, ListAfter, NotBefore;
      var timer := new Timer(fd, now + IDLE);
      BeforeConnect(timer, now);
      userTimer := userTimer[fd := timer];
      timers.AddTimer(timer);
      history := history + [Connect(timer, now)];
    }

    lemma BeforeConnect(timer: Timer, now: int)
      requires Valid() && NotBefore(history, now) && timer !in timers.nodes
      ensures Position(State(), now + IDLE) == |timers.nodes|
      ensures Insert(State(), Entry(timer, now + IDLE)) == State() + [Entry(timer, now + IDLE)]
      ensures Possible(history + [Connect(timer, now)])
      ensures Ops(history + [Connect(timer, now)]) == Ops(history) + [Add(timer, now + IDLE)]
    {
      hide Run, Legal, StablyOrdered, Sorted;
      NotLive(timers.nodes, timer);
      OneMoreEvent(history, Connect(timer, now));
      OpsOfMore(history, Connect(timer, now));
      ConnectLandsLast(history, now);
    }

    /**
     `adjust_timer` as it is written, whatever the clock says: the timer is adjusted to its new expiry, and the
     list has an end afterwards unless the timer was neither first nor last and no other expires later. Without
     an end, following `next` from the head never meets null nor a later timer.
     By a clock that does not go back, that is the case for every timer that is neither first nor last, and the
     search for the place of any connection that comes later never ends.
     */
    method AdjustTimer(timer: Timer, now: int)
      requires timers.Valid() && timer in timers.nodes
      modifies `history, timers, timers.nodes
      ensures history == old(history) + [Activity(timer, now)]
      ensures Find(old(State()), timer) < |old(State())|
      ensures var i := Find(old(State()), timer);
        var raised := old(State())[i := Entry(timer, now + IDLE)];
        && State() == Adjust(raised, i)
        && (timers.Valid() <==> !BecomesLast(raised, i))
        && (Endless(timers.head, NodeSet(timers.nodes)) <==> BecomesLast(raised, i))
        && (BecomesLast(raised, i) ==> NeverPasses(timers.head, NodeSet(timers.nodes), now + IDLE))
      ensures old(Valid()) && NotBefore(old(history), now) ==>
        var i := Find(old(State()), timer);
        var middle := 0 < i && i + 1 < |old(State())|;
        && Possible(history) && State() == ListAfter(history)
        && (Valid() <==> !middle) && (Endless(timers.head, NodeSet(timers.nodes)) <==> middle)
        && (middle ==> forall key :: now + IDLE <= key ==> NeverPasses(timers.head, NodeSet(timers.nodes), key))
    {
      hide Chain, Run, Legal, Possible, StablyOrdered, Sorted, Endless, NeverPasses, BecomesLast, Adjust, Find, Live;
      ghost var i :| 0 <= i < |timers.nodes| && timers.nodes[i] == timer;
      WhereItIs(timers.nodes, i);
      if Valid() && NotBefore(history, now) { BeforeActivity(timer, now, i); }
      timers.SetAndAdjust(timer, now + IDLE, i);
      history := history + [Activity(timer, now)];
      if Endless(timers.head, NodeSet(timers.nodes)) {
        forall key | now + IDLE <= key
          ensures NeverPasses(timers.head, NodeSet(timers.nodes), key)
        {
          PassesNoLater(timers.head, NodeSet(timers.nodes), now + IDLE, key);
        }
      }
    }

    /** The same with the repaired method of the list. */
    method AdjustTimerRepaired(timer: Timer, now: int)
      requires Valid() && timer in timers.nodes && NotBefore(history, now)
      modifies `history, timers, timers.nodes
      ensures Valid() && history == old(history) + [Activity(timer, now)]
    {
      hide Chain, Run, Legal, Possible, StablyOrdered, Sorted, Endless, BecomesLast, Adjust;
      ghost var i :| 0 <= i < |timers.nodes| && timers.nodes[i] == timer;
      BeforeActivity(timer, now, i);
      timers.SetAndAdjustRepaired(timer, now + IDLE, i);
      history := history + [Activity(timer, now)];
    }

    lemma BeforeActivity(timer: Timer, now: int, i: nat)
      requires Valid() && NotBefore(history, now) && i < |timers.nodes| && timers.nodes[i] == timer
      ensures timer.expire <= now + IDLE && Find(State(), timer) == i
      ensures BecomesLast(State()[i := Entry(timer, now + IDLE)], i) <==> 0 < i && i + 1 < |State()|
      ensures Possible(history + [Activity(timer, now)])
      ensures Ops(history + [Activity(timer, now)]) == Ops(history) + [Raise(timer, now + IDLE)]
    {
      hide Run, Legal, StablyOrdered, Sorted, Adjust, Insert, Without, Chain;
      WhereItIs(timers.nodes, i);
      ActivityLandsLast(history, timer, now);
      IsMonotone(history);
      NoneExpiresLater(history, State(), now);
      assert State()[i].expire <= now + IDLE;
      OneMoreEvent(history, Activity(timer, now));
      OpsOfMore(history, Activity(timer, now));
    }

    /** `deal_timer`, at a time that only the history records. */
    method DealTimer(timer: Timer, ghost now: int)
      requires Valid() && timer in timers.nodes && NotBefore(history, now)
      modifies `history, timers, timers.nodes
      ensures Valid() && timer !in timers.nodes && history == old(history) + [Close(timer, now)]
    {
      hide Chain, Run, Legal, Possible, StablyOrdered, Sorted;
      ghost var i :| 0 <= i < |timers.nodes| && timers.nodes[i] == timer;
      WhereItIs(timers.nodes, i);
      OneMoreEvent(history, Close(timer, now));
      OpsOfMore(history, Close(timer, now));
      timers.DelTimer(timer, i);
      history := history + [Close(timer, now)];
    }

    /** `timer_handler`: `tick`, whose call-backs close the connections that have been idle. */
    method TimerHandler(now: int) returns (fired: seq<Timer>)
      requires Valid() && NotBefore(history, now)
      modifies `history, timers, timers.nodes
      ensures Valid() && history == old(history) + [Alarm(now)]
      ensures fired == Step(ListAfter(old(history)), Op.Tick(now)).1
    {
      hide Chain, Run, Legal, Possible, StablyOrdered, Sorted, Position, Step;
      BeforeAlarm(now);
      fired := timers.Tick(now);
      history := history + [Alarm(now)];
    }

    lemma BeforeAlarm(now: int)
      requires Valid() && NotBefore(history, now)
      ensures Possible(history + [Alarm(now)])
      ensures Ops(history + [Alarm(now)]) == Ops(history) + [Op.Tick(now)]
      ensures Step(ListAfter(history), Op.Tick(now)).1 == timers.nodes[..Position(State(), now)]
    {
      hide Run, Legal, StablyOrdered, Sorted, Chain, Position;
      OneMoreEvent(history, Alarm(now));
      OpsOfMore(history, Event<Timer>.Alarm(now));
    }
  }

  /** A server with three connections and the timer of the second. */
  method ThreeConnected() returns (server: WebServer, second: Timer)
    ensures fresh(server) && fresh(server.timers) && fresh(server.timers.nodes) && server.Valid()
    ensures |server.history| == 3 && NotBefore(server.history, 2)
    ensures |server.State()| == 3 && server.State()[1].timer == second && Find(server.State(), second) == 1
  {
    hide Chain, Run, Legal, Possible, StablyOrdered, Sorted, Find, Live, Ops, ListAfter, Queue, LastTouch, LastSet;
    server := new WebServer();
    server.HttpCreateWithTimer(7, 0);
    ghost var a := server.userTimer[7];
    server.HttpCreateWithTimer(8, 1);
    second := server.userTimer[8];
    server.HttpCreateWithTimer(9, 2);
    ghost var c := server.userTimer[9];
    assert server.timers.nodes == [a, second, c];
    WhereItIs(server.timers.nodes, 1);
  }

  /** Three connections and one read on the second, in the code as written: the list has no end. */
  method EndlessListExample() returns (server: WebServer)
    ensures |server.history| == 4 && Possible(server.history)
    ensures Endless(server.timers.head, NodeSet(server.timers.nodes))
  {
    hide Chain, Run, Legal, Possible, StablyOrdered, Sorted, Endless, ListAfter, Find, Live;
    var second;
    server, second := ThreeConnected();
    server.AdjustTimer(second, 3);
  }

  /**
   The clock is set back between two connections and a read on the second: its timer stays behind one that
   expires later, and the next connection is entered by a search through a list that is not in order.
   */
  method ClockSetBackExample() returns (server: WebServer)
    ensures server.timers.Valid() && !Sorted(server.State())
    ensures |server.State()| == 2 && server.State()[0].expire == 115 && server.State()[1].expire == 15
    ensures |server.history| == 3 && Possible(server.history[..2])
  {
    hide Chain, Run, Legal, Possible, StablyOrdered, Find, Live, Endless, NeverPasses, Queue, Ops, ListAfter;
    server := new WebServer();
    server.HttpCreateWithTimer(7, 100);
    ghost var first := server.userTimer[7];
    server.HttpCreateWithTimer(8, 100);
    var second := server.userTimer[8];
    ghost var q := server.State();
    WhereItIs(server.timers.nodes, 1);
    assert q == [Entry(first, 115), Entry(second, 115)];
    server.AdjustTimer(second, 0);
    assert server.State()[1].expire < server.State()[0].expire;
  }
}
