/**
 The request queue of `ThreadPool` under any number of threads calling `append` and any number of workers
 in `run`: each semaphore operation and each locked section is one step, in any interleaving.
 */
module WorkQueue {
  import opened Counting

  /**
   Ready: about to call `append` for a request; Posting: past the locked section, before `post`;
   Waiting: at `_sem.wait()`; Woken: past it; Busy: with a request taken out; Refused: `append` returned false.
   */
  datatype Pc = Ready(req: nat) | Posting | Waiting | Woken | Busy(req: nat) | Refused(req: nat) | Elsewhere

  /** `accepted` and `taken` record what `append` queued and what workers took out, in order. */
  datatype State = State(
    queue: seq<nat>,
    sem: nat,
    maxRequests: nat,
    threads: seq<Pc>,
    accepted: seq<nat>,
    taken: seq<nat>)

  datatype Action = Produce(req: nat) | Run | Finish

  function Move(s: State, i: nat, pc: Pc): State
    requires i < |s.threads|
  {
    s.(threads := s.threads[i := pc])
  }

  predicate Enabled(s: State, i: nat, a: Action) {
    i < |s.threads| &&
    match s.threads[i]
    case Elsewhere => a.Produce? || a.Run?
    case Waiting => a.Run? && s.sem > 0
    case Busy(_) => a.Finish?
    case Refused(_) => a.Finish?
    case _ => a.Run?
  }

  /** What thread `i` does next. */
  function Step(s: State, i: nat, a: Action): State
    requires Enabled(s, i, a)
  {
    match s.threads[i]
    case Elsewhere => Move(s, i, if a.Produce? then Ready(a.req) else Waiting)
    case Ready(req) =>
      if |s.queue| >= s.maxRequests then Move(s, i, Refused(req))
      else Move(s, i, Posting).(queue := s.queue + [req], accepted := s.accepted + [req])
    case Posting => Move(s, i, Elsewhere).(sem := s.sem + 1)
    case Waiting => Move(s, i, Woken).(sem := s.sem - 1)
    case Woken =>
      if s.queue == [] then Move(s, i, Waiting)
      else Move(s, i, Busy(s.queue[0])).(queue := s.queue[1..], taken := s.taken + [s.queue[0]])
    case Busy(_) => Move(s, i, Elsewhere)
    case Refused(_) => Move(s, i, Elsewhere)
  }

  function Start(threads: nat, maxRequests: nat): State {
    State([], 0, maxRequests, seq(threads, _ => Elsewhere), [], [])
  }

  /** The state after these steps, if each was possible in its turn. */
  function After(s: State, run: seq<(nat, Action)>): (r: seq<State>)
    ensures |r| <= 1
    decreases |run|
  {
    if run == [] then [s]
    else
      var before := After(s, run[..|run| - 1]);
      var (i, a) := run[|run| - 1];
      if before != [] && Enabled(before[0], i, a) then [Step(before[0], i, a)] else []
  }

  predicate InFlight(pc: Pc) {
    pc == Posting || pc == Woken
  }

  function Flags(threads: seq<Pc>): (r: seq<bool>)
    ensures |r| == |threads| && forall i :: 0 <= i < |threads| ==> r[i] == InFlight(threads[i])
  {
    seq(|threads|, i requires 0 <= i < |threads| => InFlight(threads[i]))
  }

  /** Each queued request is announced by the semaphore, or its poster or its taker is on the way. */
  predicate Inv(s: State) {
    && s.sem + Count(Flags(s.threads)) == |s.queue|
    && s.accepted == s.taken + s.queue
    && |s.queue| <= s.maxRequests
  }

  lemma MoveCounts(s: State, i: nat, pc: Pc)
    requires i < |s.threads|
    ensures Count(Flags(Move(s, i, pc).threads)) ==
      Count(Flags(s.threads)) - (if InFlight(s.threads[i]) then 1 else 0) + (if InFlight(pc) then 1 else 0)
    ensures InFlight(s.threads[i]) ==> Count(Flags(s.threads)) > 0
  {
    var flags := Flags(s.threads);
    CountUpdate(flags, i, InFlight(pc));
    assert Flags(s.threads[i := pc]) == flags[i := InFlight(pc)];
    if flags[i] && Count(flags) == 0 { CountNone(flags); }
  }

  lemma StepKeepsInv(s: State, i: nat, a: Action)
    requires Inv(s) && Enabled(s, i, a)
    ensures Inv(Step(s, i, a))
    ensures s.threads[i] == Woken ==> s.queue != []
  {
    hide Flags, Count;
    var s' := Step(s, i, a);
    MoveCounts(s, i, s'.threads[i]);
    assert s'.threads == Move(s, i, s'.threads[i]).threads;
  }

  lemma NobodyStarted(threads: nat, maxRequests: nat)
    ensures Inv(Start(threads, maxRequests))
  {
    var s := Start(threads, maxRequests);
    if Count(Flags(s.threads)) > 0 {
      var i := CountSome(Flags(s.threads));
    }
  }

  /**
   In every interleaving: what has been taken is a prefix, in order, of what was accepted, and the rest is
   the queue, never longer than its bound; a worker that has been woken always finds a request; and `append`
   turns a request away only when the queue is full.
   */
  lemma {:induction false} QueueIsExact(threads: nat, maxRequests: nat, run: seq<(nat, Action)>)
    ensures var r := After(Start(threads, maxRequests), run);
      r != [] ==>
        var s := r[0];
        && s.accepted == s.taken + s.queue && |s.queue| <= maxRequests
        && (forall i :: 0 <= i < |s.threads| && s.threads[i] == Woken ==> s.queue != [])
        && (forall i :: 0 <= i < |s.threads| && s.threads[i].Ready? && Step(s, i, Run).threads[i].Refused? ==>
              |s.queue| == maxRequests)
  {
    RunKeepsInv(threads, maxRequests, run);
    var r := After(Start(threads, maxRequests), run);
    if r != [] {
      var s := r[0];
      forall i | 0 <= i < |s.threads| && s.threads[i] == Woken
        ensures s.queue != []
      {
        StepKeepsInv(s, i, Run);
      }
    }
  }

  lemma {:induction false} RunKeepsInv(threads: nat, maxRequests: nat, run: seq<(nat, Action)>)
    ensures var r := After(Start(threads, maxRequests), run);
      r != [] ==> Inv(r[0]) && r[0].maxRequests == maxRequests
    decreases |run|
  {
    hide Inv;
    var s := Start(threads, maxRequests);
    if run == [] {
      NobodyStarted(threads, maxRequests);
    } else {
      RunKeepsInv(threads, maxRequests, run[..|run| - 1]);
      var before := After(s, run[..|run| - 1]);
      var (i, a) := run[|run| - 1];
      if before != [] && Enabled(before[0], i, a) {
        StepKeepsInv(before[0], i, a);
      }
    }
  }

  /** The request of the last `append` that thread `i` has begun. */
  function LastProduced(s: State, run: seq<(nat, Action)>, i: nat): seq<nat>
    decreases |run|
  {
    if run == [] then []
    else
      var before := After(s, run[..|run| - 1]);
      var (j, a) := run[|run| - 1];
      if j == i && before != [] && Begins(before[0], i, a) then [a.req]
      else LastProduced(s, run[..|run| - 1], i)
  }

  predicate Begins(s: State, i: nat, a: Action) {
    i < |s.threads| && s.threads[i] == Elsewhere && a.Produce?
  }

  predicate HasOwn(s: State, i: nat, own: seq<nat>) {
    i < |s.threads| ==>
      (s.threads[i].Ready? ==> own == [s.threads[i].req]) && (s.threads[i].Refused? ==> own == [s.threads[i].req])
  }

  lemma OwnKept(s: State, j: nat, a: Action, i: nat, own: seq<nat>)
    requires Enabled(s, j, a) && HasOwn(s, i, own)
    ensures HasOwn(Step(s, j, a), i, if j == i && Begins(s, i, a) then [a.req] else own)
  {
    assert forall k {:trigger Step(s, j, a).threads[k]} :: 0 <= k < |s.threads| && k != j ==>
      Step(s, j, a).threads[k] == s.threads[k];
  }

  /** A thread about to call `append`, or turned away by it, has the request it began with. */
  lemma {:induction false} ProducesItsOwn(threads: nat, maxRequests: nat, run: seq<(nat, Action)>, i: nat)
    ensures var s := Start(threads, maxRequests);
      After(s, run) != [] ==> HasOwn(After(s, run)[0], i, LastProduced(s, run, i))
    decreases |run|
  {
    hide Step, Enabled, HasOwn, Begins;
    var s := Start(threads, maxRequests);
    if run == [] {
      NobodyProduces(threads, maxRequests, i);
    } else {
      ProducesItsOwn(threads, maxRequests, run[..|run| - 1], i);
      var before := After(s, run[..|run| - 1]);
      var (j, a) := run[|run| - 1];
      if before != [] && Enabled(before[0], j, a) {
        OwnKept(before[0], j, a, i, LastProduced(s, run[..|run| - 1], i));
      }
    }
  }

  lemma NobodyProduces(threads: nat, maxRequests: nat, i: nat)
    ensures HasOwn(Start(threads, maxRequests), i, [])
  {
  }

  /**
   In every interleaving: the next step of a woken worker gives it the request that was accepted first among those
   not yet taken, which from then on counts as taken; the next step of a thread at `append` puts its own request at
   the end, unless the queue is full.
   */
  lemma HandedOutInOrder(threads: nat, maxRequests: nat, run: seq<(nat, Action)>, i: nat)
    ensures var r := After(Start(threads, maxRequests), run);
      r != [] && i < |r[0].threads| && (r[0].threads[i] == Woken || r[0].threads[i].Ready?) ==>
        var s, t := r[0], Step(r[0], i, Run);
        && (s.threads[i] == Woken ==>
              && |s.taken| < |s.accepted|
              && t.threads[i] == Busy(s.accepted[|s.taken|]) && t.taken == s.taken + [s.accepted[|s.taken|]]
              && t.accepted == s.accepted)
        && (s.threads[i].Ready? ==>
              var own := LastProduced(Start(threads, maxRequests), run, i);
              if |s.accepted| - |s.taken| < maxRequests
              then t.accepted == s.accepted + own && t.taken == s.taken && t.threads[i] == Posting
              else t.accepted == s.accepted && t.taken == s.taken && t.threads[i].Refused? && own == [t.threads[i].req])
  {
    QueueIsExact(threads, maxRequests, run);
    RunKeepsInv(threads, maxRequests, run);
    ProducesItsOwn(threads, maxRequests, run, i);
  }

  // ---- whole calls ----

  lemma OneMore(s: State, run: seq<(nat, Action)>, t: State, i: nat, a: Action)
    requires After(s, run) == [t] && Enabled(t, i, a)
    ensures After(s, run + [(i, a)]) == [Step(t, i, a)]
  {
    hide Step, Enabled;
    assert (run + [(i, a)])[..|run|] == run;
  }

  lemma ThreadsBack(threads: seq<Pc>, i: nat, a: Pc, b: Pc)
    requires i < |threads|
    ensures threads[i := a][i := b] == threads[i := b] && threads[i := threads[i]] == threads
  {
  }

  /** A call of `append`, when there is room: its request goes to the end and is announced. */
  lemma AppendCall(s: State, i: nat, req: nat)
    requires i < |s.threads| && s.threads[i] == Elsewhere && |s.queue| < s.maxRequests
    ensures After(s, [(i, Produce(req)), (i, Run), (i, Run)]) ==
      [s.(queue := s.queue + [req], sem := s.sem + 1, accepted := s.accepted + [req])]
  {
    hide After;
    var a := s.(threads := s.threads[i := Ready(req)]);
    Begun(s, i, Produce(req), a);
    var b := s.(threads := s.threads[i := Posting], queue := s.queue + [req], accepted := s.accepted + [req]);
    ThreadsBack(s.threads, i, Ready(req), Posting);
    OneMore(s, [(i, Produce(req))], a, i, Run);
    ThreadsBack(s.threads, i, Posting, Elsewhere);
    assert [(i, Produce(req))] + [(i, Run)] == [(i, Produce(req)), (i, Run)];
    OneMore(s, [(i, Produce(req)), (i, Run)], b, i, Run);
    assert [(i, Produce(req)), (i, Run)] + [(i, Run)] == [(i, Produce(req)), (i, Run), (i, Run)];
  }

  /** A call of `append` when the queue is full changes nothing. */
  lemma {:induction false} RefusedCall(s: State, i: nat, req: nat)
    requires i < |s.threads| && s.threads[i] == Elsewhere && |s.queue| >= s.maxRequests
    ensures After(s, [(i, Produce(req)), (i, Run), (i, Finish)]) == [s]
  {
    hide After;
    Refusal(s, i, req);
    var b := s.(threads := s.threads[i := Refused(req)]);
    var run := [(i, Produce(req)), (i, Run)];
    ThreadsBack(s.threads, i, Refused(req), Elsewhere);
    OneMore(s, run, b, i, Finish);
    assert run + [(i, Finish)] == [(i, Produce(req)), (i, Run), (i, Finish)];
  }

  lemma Refusal(s: State, i: nat, req: nat)
    requires i < |s.threads| && s.threads[i] == Elsewhere && |s.queue| >= s.maxRequests
    ensures After(s, [(i, Produce(req)), (i, Run)]) == [s.(threads := s.threads[i := Refused(req)])]
  {
    hide After;
    var a := s.(threads := s.threads[i := Ready(req)]);
    Begun(s, i, Produce(req), a);
    ThreadsBack(s.threads, i, Ready(req), Refused(req));
    OneMore(s, [(i, Produce(req))], a, i, Run);
    assert [(i, Produce(req))] + [(i, Run)] == [(i, Produce(req)), (i, Run)];
  }

  lemma Begun(s: State, i: nat, a: Action, t: State)
    requires Enabled(s, i, a) && Step(s, i, a) == t
    ensures After(s, [(i, a)]) == [t]
  {
    hide Step, Enabled;
    assert After(s, []) == [s];
    OneMore(s, [], s, i, a);
    assert [] + [(i, a)] == [(i, a)];
  }

  /** A worker's turn: it takes the first request, and when it is done it can take another. */
  lemma WorkerTurn(s: State, i: nat)
    requires i < |s.threads| && s.threads[i] == Elsewhere && s.sem > 0 && s.queue != []
    ensures var taken := s.(queue := s.queue[1..], sem := s.sem - 1, taken := s.taken + [s.queue[0]]);
      && After(s, [(i, Run), (i, Run), (i, Run)]) == [taken.(threads := s.threads[i := Busy(s.queue[0])])]
      && After(s, [(i, Run), (i, Run), (i, Run), (i, Finish)]) == [taken]
  {
    hide After;
    var a := s.(threads := s.threads[i := Waiting]);
    Begun(s, i, Run, a);
    var b := s.(threads := s.threads[i := Woken], sem := s.sem - 1);
    ThreadsBack(s.threads, i, Waiting, Woken);
    OneMore(s, [(i, Run)], a, i, Run);
    assert [(i, Run)] + [(i, Run)] == [(i, Run), (i, Run)];
    var c := s.(threads := s.threads[i := Busy(s.queue[0])], sem := s.sem - 1, queue := s.queue[1..],
                taken := s.taken + [s.queue[0]]);
    ThreadsBack(s.threads, i, Woken, Busy(s.queue[0]));
    OneMore(s, [(i, Run), (i, Run)], b, i, Run);
    assert [(i, Run), (i, Run)] + [(i, Run)] == [(i, Run), (i, Run), (i, Run)];
    ThreadsBack(s.threads, i, Busy(s.queue[0]), Elsewhere);
    OneMore(s, [(i, Run), (i, Run), (i, Run)], c, i, Finish);
    assert [(i, Run), (i, Run), (i, Run)] + [(i, Finish)] == [(i, Run), (i, Run), (i, Run), (i, Finish)];
  }
}
