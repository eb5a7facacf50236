/**
 `SortTimerList`: a doubly linked list of heap-allocated timers with head and tail pointers, kept in
 order of expiry, and the methods that relink it.
 */
module TimerList {
  import opened TimerQueue
  import opened TimerRuns

  class Timer {
    var expire: int
    const user: nat
    var pre: Timer?
    var next: Timer?

    constructor (user: nat, expire: int)
      ensures this.user == user && this.expire == expire && pre == null && next == null
    {
      this.user, this.expire := user, expire;
      pre, next := null, null;
    }
  }

  /**
   The nodes are distinct and linked both ways; the last one's `next` is `stop`. The first one's `pre` may be
   anything: no method reads it.
   */
  ghost predicate Chain(nodes: seq<Timer>, stop: Timer?)
    reads nodes
  {
    && (forall i, j :: 0 <= i < j < |nodes| ==> nodes[i] != nodes[j])
    && (forall i {:trigger nodes[i].next} :: 0 <= i < |nodes| ==>
          nodes[i].next == if i + 1 < |nodes| then nodes[i + 1] else stop)
    && (forall i {:trigger nodes[i].pre} :: 0 < i < |nodes| ==> nodes[i].pre == nodes[i - 1])
  }

  /** The queue that the nodes stand for. */
  ghost function Queue(nodes: seq<Timer>): (q: seq<Entry<Timer>>)
    reads nodes
    ensures |q| == |nodes|
    ensures forall i :: 0 <= i < |nodes| ==> q[i] == Entry(nodes[i], nodes[i].expire)
  {
    seq(|nodes|, i requires 0 <= i < |nodes| reads nodes => Entry(nodes[i], nodes[i].expire))
  }

  class SortTimerList {
    var head: Timer?
    var tail: Timer?
    ghost var nodes: seq<Timer>
    ghost var history: seq<Op<Timer>>

    /** Head and tail point at the ends; `tail` means nothing while the list is empty. */
    ghost predicate Ends()
      reads this
    {
      && head == (if nodes == [] then null else nodes[0])
      && (nodes != [] ==> tail == nodes[|nodes| - 1])
    }

    ghost predicate Valid()
      reads this, nodes
    {
      Ends() && Chain(nodes, null)
    }

    /**
     The list is what the operations so far make of it, each of them allowed when it came. So it is in order of
     expiry, equal expiries in the order in which they were set.
     */
    ghost predicate Recorded(): (b: bool)
      reads `history, `nodes, nodes
      ensures b ==> Sorted(Queue(nodes)) && StablyOrdered(history, Queue(nodes))
    {
      Legal(history) && Queue(nodes) == Run(history) && (StableOverRuns(history); true)
    }

    constructor ()
      ensures Valid() && nodes == [] && Recorded() && history == []
    {
      head, tail, nodes, history := null, null, [], [];
    }

    /** The first node that expires after `timer`; null when there is none. */
    method FindPlace(timer: Timer) returns (tmp: Timer?, ghost p: nat)
      requires Valid()
      ensures p == Position(Queue(nodes), timer.expire)
      ensures tmp == if p < |nodes| then nodes[p] else null
    {
      tmp, p := head, 0;
      ghost var q := Queue(nodes);
      while tmp != null
        invariant p <= |nodes| && tmp == if p < |nodes| then nodes[p] else null
        invariant forall i :: 0 <= i < p ==> q[i].expire <= timer.expire
        decreases |nodes| - p
      {
        if timer.expire < tmp.expire { break; }
        tmp := tmp.next;
        p := p + 1;
      }
      FirstLater(q, timer.expire, p);
    }

    /** `add_timer`, for a timer that is not in the list. */
    method AddTimer(timer: Timer?)
      requires Valid()
      requires timer != null ==> timer !in nodes && timer.next == null
      modifies this, nodes`pre, nodes`next, timer
      ensures Valid()
      ensures timer == null ==> nodes == old(nodes) && history == old(history)
      ensures timer != null ==>
        var p := Position(old(Queue(nodes)), timer.expire);
        && timer.expire == old(timer.expire)
        && nodes == old(nodes)[..p] + [timer] + old(nodes)[p..]
        && Queue(nodes) == Insert(old(Queue(nodes)), Entry(timer, timer.expire))
        && history == old(history) + [Add(timer, timer.expire)]
      ensures old(Recorded()) ==> Recorded()
    {
      hide Chain, Position, Insert, Legal, Run, StablyOrdered, Sorted;
      if timer == null { return; }
      ghost var q := Queue(nodes);
      NotLive(nodes, timer);
      AddNode(timer);
      history := history + [Add(timer, timer.expire)];
      if old(Recorded()) { OneMore(old(history), Add(timer, timer.expire)); }
    }

    /**
     The rest of `add_timer`, for a node whose links may be stale: they are overwritten except where the code
     relies on them. `next` must be null for the list to end at the node.
     */
    method AddNode(timer: Timer)
      requires Valid() && timer !in nodes
      modifies `head, `tail, `nodes, nodes`pre, nodes`next, timer`pre, timer`next
      ensures Ends()
      ensures var p := Position(old(Queue(nodes)), timer.expire);
        && nodes == old(nodes)[..p] + [timer] + old(nodes)[p..]
        && Queue(nodes) == Insert(old(Queue(nodes)), Entry(timer, timer.expire))
        && Chain(nodes, if p == |old(nodes)| then old(timer.next) else null)
    {
      hide Chain, Position;
      if head == null {
        head, tail := timer, timer;
        nodes := [timer];
        SingleNode(timer);
        return;
      }
      ghost var ns, was := nodes, Queue(nodes);
      var tmp, p := FindPlace(timer);
      Link(timer, tmp, p);
      assert Queue(ns) == was;
      QueueSplit(ns, timer, p);
    }

    method Link(timer: Timer, tmp: Timer?, ghost p: nat)
      requires Valid() && timer !in nodes && nodes != [] && p <= |nodes|
      requires tmp == if p < |nodes| then nodes[p] else null
      modifies `head, `tail, `nodes, timer`next, timer`pre, nodes`pre, nodes`next
      ensures Ends() && nodes == old(nodes)[..p] + [timer] + old(nodes)[p..]
      ensures Chain(nodes, if p == |old(nodes)| then old(timer.next) else null)
    {
      if tmp == head {
        LinkFirst(timer);
      } else if tmp == null {
        LinkLast(timer);
      } else {
        LinkBefore(timer, tmp, p);
      }
    }

    method LinkFirst(timer: Timer)
      requires Valid() && timer !in nodes && nodes != []
      modifies `head, `nodes, timer`next, nodes`pre
      ensures Ends() && nodes == [timer] + old(nodes) && Chain(nodes, null)
    {
      ghost var ns := nodes;
      assert head == ns[0];
      timer.next := head;
      head.pre := timer;
      head := timer;
      nodes := [timer] + nodes;
      assert forall i {:trigger nodes[i]} :: 0 <= i < |nodes| ==> nodes[i] == if i == 0 then timer else ns[i - 1];
    }

    method LinkLast(timer: Timer)
      requires Valid() && timer !in nodes && nodes != []
      modifies `tail, `nodes, timer`pre, nodes`next
      ensures Ends() && nodes == old(nodes) + [timer] && Chain(nodes, timer.next)
    {
      ghost var ns := nodes;
      assert tail == ns[|ns| - 1];
      tail.next := timer;
      timer.pre := tail;
      tail := timer;
      nodes := nodes + [timer];
      assert forall i {:trigger nodes[i]} :: 0 <= i < |nodes| ==> nodes[i] == if i < |ns| then ns[i] else timer;
    }

    method LinkBefore(timer: Timer, tmp: Timer, ghost p: nat)
      requires Valid() && timer !in nodes && 0 < p < |nodes| && tmp == nodes[p]
      modifies `nodes, timer`next, timer`pre, nodes`pre, nodes`next
      ensures Ends() && nodes == old(nodes)[..p] + [timer] + old(nodes)[p..] && Chain(nodes, null)
    {
      ghost var ns := nodes;
      assert ns[p].pre == ns[p - 1];
      var pre := tmp.pre;
      pre.next := timer;
      timer.pre := pre;
      timer.next := tmp;
      tmp.pre := timer;
      nodes := nodes[..p] + [timer] + nodes[p..];
      assert forall i {:trigger nodes[i]} :: 0 <= i < |nodes| ==>
        nodes[i] == if i < p then ns[i] else if i == p then timer else ns[i - 1];
    }

    /** The write to `_expire_time` that precedes a call of `adjust_timer`. */
    method SetExpiry(timer: Timer, expire: int, ghost i: nat)
      requires Valid() && i < |nodes| && nodes[i] == timer
      modifies timer`expire
      ensures Valid() && timer.expire == expire
      ensures Queue(nodes) == old(Queue(nodes))[i := Entry(timer, expire)]
    {
      timer.expire := expire;
    }

    // ---- unlinking ----

    method UnlinkFirst()
      requires Valid() && |nodes| > 1
      modifies `head, `nodes, nodes`pre
      ensures Valid() && nodes == old(nodes)[1..] && Queue(nodes) == old(Queue(nodes))[1..]
      ensures old(nodes)[0] !in nodes && nodes[0].pre == null
    {
      ghost var ns := nodes;
      assert ns[0].next == ns[1];
      head := head.next;
      head.pre := null;
      nodes := nodes[1..];
      assert forall k {:trigger nodes[k]} :: 0 <= k < |nodes| ==> nodes[k] == ns[k + 1];
    }

    method UnlinkLast()
      requires Valid() && |nodes| > 1
      modifies `tail, `nodes, nodes`next
      ensures Valid() && nodes == old(nodes)[..|old(nodes)| - 1] && old(nodes)[|old(nodes)| - 1] !in nodes
      ensures Queue(nodes) == old(Queue(nodes))[..|old(nodes)| - 1]
    {
      ghost var ns := nodes;
      assert ns[|ns| - 1].pre == ns[|ns| - 2];
      tail := tail.pre;
      tail.next := null;
      nodes := nodes[..|nodes| - 1];
    }

    method UnlinkMiddle(timer: Timer, ghost i: nat)
      requires Valid() && 0 < i && i + 1 < |nodes| && nodes[i] == timer
      modifies `nodes, nodes`pre, nodes`next
      ensures Valid() && nodes == Without(old(nodes), i) && timer !in nodes && timer.next == old(timer.next)
      ensures Queue(nodes) == Without(old(Queue(nodes)), i)
    {
      ghost var ns, q := nodes, Queue(nodes);
      SkipNode(timer, i);
      hide Chain;
      assert Queue(ns) == q;
      QueueWithout(ns, i);
    }

    method SkipNode(timer: Timer, ghost i: nat)
      requires Valid() && 0 < i && i + 1 < |nodes| && nodes[i] == timer
      modifies `nodes, nodes`pre, nodes`next
      ensures Valid() && nodes == Without(old(nodes), i) && timer !in nodes && timer.next == old(timer.next)
    {
      ghost var ns := nodes;
      assert ns[i].pre == ns[i - 1] && ns[i].next == ns[i + 1];
      timer.pre.next := timer.next;
      timer.next.pre := timer.pre;
      nodes := nodes[..i] + nodes[i + 1..];
      assert forall k {:trigger nodes[k]} :: 0 <= k < |nodes| ==> nodes[k] == if k < i then ns[k] else ns[k + 1];
    }

    /** A node is the head or the tail exactly when its index says so. */
    lemma WhichEnd(i: nat)
      requires Valid() && i < |nodes|
      ensures nodes[i] == head <==> i == 0
      ensures nodes[i] == tail <==> i == |nodes| - 1
      ensures i == 0 ==> Without(nodes, i) == nodes[1..] && Without(Queue(nodes), i) == Queue(nodes)[1..]
      ensures i == |nodes| - 1 ==> Without(nodes, i) == nodes[..i] && Without(Queue(nodes), i) == Queue(nodes)[..i]
    {
    }

    // ---- adjust_timer ----

    /**
     `adjust_timer` as it is written, after the expiry of `timer`, at index `i`, was changed. It is moved or
     stays as `Adjust` says. The links are right in every case but one: a node from the middle that no other
     node outlives becomes the last and keeps the `next` it had, and the list no longer ends.
     */
    method AdjustTimer(timer: Timer?, ghost i: nat)
      requires Valid()
      requires timer != null ==> i < |nodes| && nodes[i] == timer
      modifies `head, `tail, `nodes, nodes`pre, nodes`next
      ensures timer == null ==> Valid() && nodes == old(nodes)
      ensures timer != null ==>
        && Ends() && nodes != []
        && Queue(nodes) == Adjust(old(Queue(nodes)), i)
        && var stale := BecomesLast(old(Queue(nodes)), i);
           && Chain(nodes, if stale then old(nodes)[i + 1] else null)
           && (stale ==> old(nodes)[i + 1] in nodes)
           && (Valid() <==> !stale)
           && (Endless(head, NodeSet(nodes)) <==> stale)
           && (stale ==> NeverPasses(head, NodeSet(nodes), timer.expire))
    {
      hide Insert, Adjust, Without, Endless, NeverPasses;
      if timer == null { return; }
      AdjustCases(Queue(nodes), i);
      ghost var q := Queue(nodes);
      var tmp := timer.next;
      if tmp == null || timer.expire < tmp.expire {
        StaleLinkIsACycle(nodes, null);
        return;
      }
      if timer == head {
        WhichEnd(i);
        MoveHead(timer);
        StaleLinkIsACycle(nodes, null);
      } else {
        MoveMiddle(timer, i);
        StaleLinkIsACycle(nodes, if BecomesLast(q, i) then old(nodes)[i + 1] else null);
        if BecomesLast(q, i) {
          NoneLater(q, i, nodes);
          SearchNeverEnds(nodes, old(nodes)[i + 1], timer.expire);
        }
      }
    }

    method MoveHead(timer: Timer)
      requires Valid() && |nodes| > 1 && nodes[0] == timer
      modifies `head, `tail, `nodes, nodes`pre, nodes`next
      ensures Valid() && nodes != []
      ensures Queue(nodes) == Insert(old(Queue(nodes))[1..], old(Queue(nodes))[0])
    {
      hide Chain, Insert, Position;
      UnlinkFirst();
      timer.next := null;
      assert Queue(nodes) == old(Queue(nodes))[1..];
      AddNode(timer);
    }

    method MoveMiddle(timer: Timer, ghost i: nat)
      requires Valid() && 0 < i && i + 1 < |nodes| && nodes[i] == timer
      modifies `head, `tail, `nodes, nodes`pre, nodes`next
      ensures Ends() && nodes != []
      ensures Queue(nodes) == Insert(Without(old(Queue(nodes)), i), old(Queue(nodes))[i])
      ensures var stale := BecomesLast(old(Queue(nodes)), i);
        && Chain(nodes, if stale then old(nodes)[i + 1] else null)
        && (stale ==> old(nodes)[i + 1] in nodes)
        && (Valid() <==> !stale)
    {
      assert timer.next == nodes[i + 1];
      ghost var next, q := nodes[i + 1], Queue(nodes);
      UnlinkMiddle(timer, i);
      hide Chain, Insert, Without;
      ghost var rest, p := nodes, Position(Queue(nodes), timer.expire);
      assert rest[i] == next by { assert Without(old(nodes), i)[i] == next; }
      LandsLast(q, i);
      AddNode(timer);
      InsertedAt(rest, p, timer, i);
      ChainEnd(nodes, if BecomesLast(q, i) then next else null);
    }

    /** `adjust_timer` with the one line `timer->_next = nullptr` added to its middle branch. */
    method AdjustTimerRepaired(timer: Timer?, ghost i: nat)
      requires Valid()
      requires timer != null ==> i < |nodes| && nodes[i] == timer
      modifies `head, `tail, `nodes, nodes`pre, nodes`next
      ensures Valid()
      ensures timer == null ==> nodes == old(nodes)
      ensures timer != null ==> Queue(nodes) == Adjust(old(Queue(nodes)), i)
    {
      hide Insert, Adjust, Without;
      if timer == null { return; }
      AdjustCases(Queue(nodes), i);
      var tmp := timer.next;
      if tmp == null || timer.expire < tmp.expire { return; }
      if timer == head {
        WhichEnd(i);
        MoveHead(timer);
      } else {
        MoveMiddleRepaired(timer, i);
      }
    }

    method MoveMiddleRepaired(timer: Timer, ghost i: nat)
      requires Valid() && 0 < i && i + 1 < |nodes| && nodes[i] == timer
      modifies `head, `tail, `nodes, nodes`pre, nodes`next
      ensures Valid()
      ensures Queue(nodes) == Insert(Without(old(Queue(nodes)), i), old(Queue(nodes))[i])
    {
      hide Chain, Insert;
      UnlinkMiddle(timer, i);
      timer.next := null;
      assert Queue(nodes) == Without(old(Queue(nodes)), i);
      AddNode(timer);
    }

    /** The two writes of `WebServer::adjust_timer`, with `adjust_timer` as it is written. */
    method SetAndAdjust(timer: Timer, expire: int, ghost i: nat)
      requires Valid() && i < |nodes| && nodes[i] == timer
      modifies this, nodes
      ensures Ends() && timer.expire == expire
      ensures var raised := old(Queue(nodes))[i := Entry(timer, expire)];
        && Queue(nodes) == Adjust(raised, i)
        && (Valid() <==> !BecomesLast(raised, i))
        && (Endless(head, NodeSet(nodes)) <==> BecomesLast(raised, i))
        && (BecomesLast(raised, i) ==> NeverPasses(head, NodeSet(nodes), expire))
      ensures history == old(history) + [Raise(timer, expire)]
      ensures old(Recorded()) && old(timer.expire) <= expire ==> Recorded()
    {
      hide Chain, Adjust, Endless, NeverPasses, Legal, Run, BecomesLast, StablyOrdered, Sorted;
      WhereItIs(nodes, i);
      SetExpiry(timer, expire, i);
      AdjustTimer(timer, i);
      history := history + [Raise(timer, expire)];
      if old(Recorded()) && old(timer.expire) <= expire { OneMore(old(history), Raise(timer, expire)); }
    }

    /** The same with the repaired method. */
    method SetAndAdjustRepaired(timer: Timer, expire: int, ghost i: nat)
      requires Valid() && i < |nodes| && nodes[i] == timer
      modifies this, nodes
      ensures Valid() && timer.expire == expire
      ensures Queue(nodes) == Adjust(old(Queue(nodes))[i := Entry(timer, expire)], i)
      ensures history == old(history) + [Raise(timer, expire)]
      ensures old(Recorded()) && old(timer.expire) <= expire ==> Recorded()
    {
      hide Chain, Adjust, Legal, Run, StablyOrdered, Sorted;
      WhereItIs(nodes, i);
      SetExpiry(timer, expire, i);
      AdjustTimerRepaired(timer, i);
      history := history + [Raise(timer, expire)];
      if old(Recorded()) && old(timer.expire) <= expire { OneMore(old(history), Raise(timer, expire)); }
    }

    // ---- del_timer, tick and the destructor ----

    /** `del_timer`; the node is out of the list and, in the program, freed. */
    method DelTimer(timer: Timer?, ghost i: nat)
      requires Valid()
      requires timer != null ==> i < |nodes| && nodes[i] == timer
      modifies this, nodes`pre, nodes`next
      ensures Valid()
      ensures timer == null ==> nodes == old(nodes) && history == old(history)
      ensures timer != null ==>
        && nodes == Without(old(nodes), i) && timer !in nodes
        && Queue(nodes) == Without(old(Queue(nodes)), i)
        && history == old(history) + [Del(timer)]
        && (i == 0 && nodes != [] ==> nodes[0].pre == null)
        && (nodes == [] ==> tail == null)
      ensures old(Recorded()) ==> Recorded()
    {
      hide Chain, Legal, Run, StablyOrdered, Sorted;
      if timer == null { return; }
      WhereItIs(nodes, i);
      Unlink(timer, i);
      history := history + [Del(timer)];
      if old(Recorded()) { OneMore(old(history), Del(timer)); }
    }

    method Unlink(timer: Timer, ghost i: nat)
      requires Valid() && i < |nodes| && nodes[i] == timer
      modifies `head, `tail, `nodes, nodes`pre, nodes`next
      ensures Valid() && nodes == Without(old(nodes), i) && timer !in nodes
      ensures Queue(nodes) == Without(old(Queue(nodes)), i)
      ensures i == 0 && nodes != [] ==> nodes[0].pre == null
      ensures nodes == [] ==> tail == null
    {
      hide Chain;
      WhichEnd(i);
      if timer == head && timer == tail {
        head, tail, nodes := null, null, [];
        NoNodes();
        return;
      }
      if timer == head {
        UnlinkFirst();
      } else if timer == tail {
        UnlinkLast();
      } else {
        UnlinkMiddle(timer, i);
      }
    }

    static lemma NoNodes()
      ensures Chain([], null)
    {
    }

    /** `tick` at time `now`: the call-backs that run, in order, and what stays. */
    method Tick(now: int) returns (fired: seq<Timer>)
      requires Valid()
      modifies `head, `nodes, `history, nodes`pre
      ensures Valid()
      ensures var n := Position(old(Queue(nodes)), now);
        fired == old(nodes)[..n] && nodes == old(nodes)[n..] && Queue(nodes) == old(Queue(nodes))[n..]
      ensures fired != [] && head != null ==> head.pre == null
      ensures history == old(history) + [Op.Tick(now)]
      ensures old(Recorded()) ==> Recorded()
    {
      hide Chain, Position, Legal, Run, StablyOrdered, Sorted;
      fired := Expire(now);
      history := history + [Op.Tick(now)];
      if old(Recorded()) { OneMore(old(history), Op.Tick(now)); }
    }

    method Expire(now: int) returns (fired: seq<Timer>)
      requires Valid()
      modifies `head, `nodes, nodes`pre
      ensures Valid()
      ensures var n := Position(old(Queue(nodes)), now);
        fired == old(nodes)[..n] && nodes == old(nodes)[n..] && Queue(nodes) == old(Queue(nodes))[n..]
      ensures fired != [] && head != null ==> head.pre == null
    {
      hide Chain, Position, Queue;
      fired := [];
      ghost var ns, q := nodes, Queue(nodes);
      if head != null {
        var tmp := head;
        while tmp != null
          invariant Valid() && tmp == head
          invariant |fired| <= |ns| && fired == ns[..|fired|] && nodes == ns[|fired|..]
          invariant forall k :: 0 <= k < |fired| ==> q[k].expire <= now
          invariant fired != [] && head != null ==> head.pre == null
          decreases |nodes|
        {
          SliceStep(ns, |fired|);
          if now < tmp.expire { break; }
          fired := fired + [tmp];
          DropHead();
          tmp := head;
        }
      }
      assert Queue(ns) == q;
      QueueTail(ns, |fired|);
      FirstLater(q, now, |fired|);
    }

    /** The relinking in the loop of `tick`; `tail` is left as it is even when the list becomes empty. */
    method DropHead()
      requires Valid() && nodes != []
      modifies `head, `nodes, nodes`pre
      ensures Valid() && nodes == old(nodes)[1..] && (head != null ==> head.pre == null)
    {
      ghost var ns := nodes;
      assert ns[0].next == if |ns| > 1 then ns[1] else null;
      head := head.next;
      if head != null { head.pre := null; }
      nodes := nodes[1..];
      assert forall k {:trigger nodes[k]} :: 0 <= k < |nodes| ==> nodes[k] == ns[k + 1];
    }

    /** The destructor: every node is deleted, once each and in order. */
    method Destroy() returns (deleted: seq<Timer>)
      requires Valid()
      modifies `head, `nodes
      ensures head == null && deleted == old(nodes)
    {
      deleted := [];
      var tmp := head;
      ghost var ns := nodes;
      while tmp != null
        invariant |deleted| <= |ns| && deleted == ns[..|deleted|] && tmp == head
        invariant tmp == if |deleted| < |ns| then ns[|deleted|] else null
        invariant Chain(ns, null)
        decreases |ns| - |deleted|
      {
        assert ns[|deleted|].next == if |deleted| + 1 < |ns| then ns[|deleted| + 1] else null;
        head := tmp.next;
        deleted := deleted + [tmp];
        tmp := head;
      }
      nodes := [];
    }
  }

  lemma InsertedAt(rest: seq<Timer>, p: nat, timer: Timer, i: nat)
    requires p <= |rest| && i < |rest| && timer !in rest
    ensures var r := rest[..p] + [timer] + rest[p..];
      rest[i] in r && (p == |rest| <==> r[|r| - 1] == timer)
  {
    var r := rest[..p] + [timer] + rest[p..];
    assert r[if i < p then i else i + 1] == rest[i];
    if p < |rest| { assert r[|r| - 1] == rest[|rest| - 1]; }
  }

  lemma ChainEnd(nodes: seq<Timer>, stop: Timer?)
    requires nodes != [] && Chain(nodes, stop)
    ensures Chain(nodes, null) <==> stop == null
  {
    assert nodes[|nodes| - 1].next == stop;
  }

  lemma SliceStep<T>(s: seq<T>, k: nat)
    requires k < |s|
    ensures s[k..][0] == s[k] && s[k..][1..] == s[k + 1..] && s[..k] + [s[k]] == s[..k + 1]
    ensures forall x :: x in s[k..] ==> x in s
  {
  }

  /** What `adjust_timer` has to do for an entry. */
  lemma AdjustCases<T>(q: seq<Entry<T>>, i: nat)
    requires i < |q|
    ensures i + 1 == |q| || q[i].expire < q[i + 1].expire ==> Adjust(q, i) == q && !BecomesLast(q, i)
    ensures i + 1 < |q| && q[i + 1].expire <= q[i].expire ==> Adjust(q, i) == Insert(Without(q, i), q[i])
    ensures i == 0 ==> !BecomesLast(q, i)
  {
  }

  /** An entry taken from the middle is inserted at the end exactly when no other is later. */
  lemma LandsLast<T>(q: seq<Entry<T>>, i: nat)
    requires 0 < i && i + 1 < |q|
    ensures BecomesLast(q, i) <==> Position(Without(q, i), q[i].expire) == |q| - 1
  {
    var rest := Without(q, i);
    assert forall j {:trigger q[j]} :: 0 <= j < i ==> rest[j] == q[j];
    assert forall j {:trigger q[j]} :: i < j < |q| ==> rest[j - 1] == q[j];
    assert forall j {:trigger rest[j]} :: 0 <= j < |rest| ==> rest[j] == if j < i then q[j] else q[j + 1];
  }

  /** Adjusting brings in no entry, so none of the nodes is later than one that becomes the last. */
  lemma NoneLater(q: seq<Entry<Timer>>, i: nat, nodes: seq<Timer>)
    requires BecomesLast(q, i) && Queue(nodes) == Adjust(q, i)
    ensures forall k :: 0 <= k < |nodes| ==> nodes[k].expire <= q[i].expire
  {
    forall k | 0 <= k < |nodes|
      ensures nodes[k].expire <= q[i].expire
    {
      assert Queue(nodes)[k] in Adjust(q, i);
      AdjustBringsNone(q, i, Queue(nodes)[k]);
    }
  }

  lemma AdjustBringsNone<T>(q: seq<Entry<T>>, i: nat, e: Entry<T>)
    requires i < |q| && e in Adjust(q, i)
    ensures e in q
  {
  }

  lemma NotLive(nodes: seq<Timer>, timer: Timer)
    requires timer !in nodes
    ensures !Live(Queue(nodes), timer)
  {
  }

  lemma WhereItIs(nodes: seq<Timer>, i: nat)
    requires Chain(nodes, null) && i < |nodes|
    ensures Live(Queue(nodes), nodes[i]) && Find(Queue(nodes), nodes[i]) == i
  {
    assert Queue(nodes)[i].timer == nodes[i];
  }

  // ---- the defect of adjust_timer ----

  /** The node reached from `t` by following `next` `n` times, within `region`. */
  ghost function Follow(t: Timer?, n: nat, region: set<Timer>): Timer?
    reads region
  {
    if n == 0 || t == null || t !in region then t else Follow(t.next, n - 1, region)
  }

  ghost function NodeSet(nodes: seq<Timer>): set<Timer> {
    set t | t in nodes
  }

  /** Following `next` from `t` never meets null. */
  ghost predicate Endless(t: Timer?, region: set<Timer>)
    reads region
  {
    forall n: nat :: Follow(t, n, region) != null
  }

  lemma {:induction false} StaysInNodes(nodes: seq<Timer>, stop: Timer?, i: nat, n: nat)
    requires Chain(nodes, stop) && stop != null && stop in nodes && i < |nodes|
    ensures Follow(nodes[i], n, NodeSet(nodes)) != null && Follow(nodes[i], n, NodeSet(nodes)) in nodes
    decreases n
  {
    if n > 0 {
      assert nodes[i].next == if i + 1 < |nodes| then nodes[i + 1] else stop;
      if i + 1 < |nodes| {
        StaysInNodes(nodes, stop, i + 1, n - 1);
      } else {
        var j :| 0 <= j < |nodes| && nodes[j] == stop;
        StaysInNodes(nodes, stop, j, n - 1);
      }
    }
  }

  /** A list has no end if and only if its last node's `next` is one of its own nodes. */
  lemma StaleLinkIsACycle(nodes: seq<Timer>, stop: Timer?)
    requires Chain(nodes, stop) && nodes != [] && (stop == null || stop in nodes)
    ensures Endless(nodes[0], NodeSet(nodes)) <==> stop != null
  {
    if stop == null {
      ReachesEnd(nodes, 0);
    } else {
      forall n: nat
        ensures Follow(nodes[0], n, NodeSet(nodes)) != null
      {
        StaysInNodes(nodes, stop, 0, n);
      }
    }
  }

  /** Every node that following `next` from `t` leads to is there and expires no later than `key`. */
  ghost predicate NeverPasses(t: Timer?, region: set<Timer>, key: int)
    reads region
  {
    forall n: nat ::
      var x := Follow(t, n, region);
      x != null && x in region && x.expire <= key
  }

  /** In a list that has lost its end, the search of `add_timer` for a time that is not early never ends. */
  lemma SearchNeverEnds(nodes: seq<Timer>, stop: Timer?, key: int)
    requires Chain(nodes, stop) && nodes != [] && stop != null && stop in nodes
    requires forall i :: 0 <= i < |nodes| ==> nodes[i].expire <= key
    ensures NeverPasses(nodes[0], NodeSet(nodes), key)
  {
    forall n: nat
      ensures var x := Follow(nodes[0], n, NodeSet(nodes));
        x != null && x in NodeSet(nodes) && x.expire <= key
    {
      StaysInNodes(nodes, stop, 0, n);
    }
  }

  lemma PassesNoLater(t: Timer?, region: set<Timer>, key: int, later: int)
    requires NeverPasses(t, region, key) && key <= later
    ensures NeverPasses(t, region, later)
  {
    forall n: nat
      ensures var x := Follow(t, n, region); x != null && x in region && x.expire <= later
    {
      assert Follow(t, n, region).expire <= key;
    }
  }

  lemma {:induction false} ReachesEnd(nodes: seq<Timer>, i: nat)
    requires Chain(nodes, null) && i < |nodes|
    ensures Follow(nodes[i], |nodes| - i, NodeSet(nodes)) == null
    decreases |nodes| - i
  {
    assert nodes[i].next == if i + 1 < |nodes| then nodes[i + 1] else null;
    if i + 1 < |nodes| { ReachesEnd(nodes, i + 1); }
  }

  lemma QueueWithout(ns: seq<Timer>, i: nat)
    requires i < |ns|
    ensures Queue(Without(ns, i)) == Without(Queue(ns), i)
  {
  }

  lemma QueueTail(ns: seq<Timer>, n: nat)
    requires n <= |ns|
    ensures Queue(ns[n..]) == Queue(ns)[n..]
    ensures n < |ns| ==> ns[n..][0] == ns[n]
  {
  }

  lemma SingleNode(timer: Timer)
    ensures Chain([timer], timer.next)
  {
  }

  lemma QueueSplit(ns: seq<Timer>, timer: Timer, p: nat)
    requires p <= |ns|
    ensures Queue(ns[..p] + [timer] + ns[p..]) == Queue(ns)[..p] + [Entry(timer, timer.expire)] + Queue(ns)[p..]
  {
  }

  lemma FirstLater<T>(q: seq<Entry<T>>, key: int, p: nat)
    requires p <= |q| && (forall i :: 0 <= i < p ==> q[i].expire <= key) && (p < |q| ==> key < q[p].expire)
    ensures p == Position(q, key)
  {
    if p > 0 {
      assert forall i :: 0 <= i < |q[1..]| ==> q[1..][i] == q[i + 1];
      FirstLater(q[1..], key, p - 1);
    }
  }
}
