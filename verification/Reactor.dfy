/**
 The Reactor configuration as a system of threads: the main thread in `dealwithread`/`dealwithwrite`, any
 number of workers in `ThreadPool::run`, and the MySQL connection pool between them. Each unlocked check,
 semaphore operation, locked section and flag write is one step; steps interleave in any order.
 */
module Reactor {
  import opened Counting

  datatype Io = Read | Write

  /**
   A worker. Waiting: at `_sem.wait()`. Woken: past it, before the locked section. Popped, Reading, Writing:
   with a request, `_improv` not yet set. Signal: about to set `_improv`; then to set `_timer_flag` (Flag), to
   take a MySQL connection (CheckList), or to wait again. CheckList: at the unlocked size check of `get_conn`.
   DbWait: at the pool's `_sem.wait()`. DbPop: past it. Processing: in `do_process`, with a connection or with
   the null pointer. DbPush: at the locked section of `release_conn`. DbPost: before its `post`.
   */
  datatype Pc =
    | Waiting
    | Woken
    | Popped(req: nat)
    | Reading(req: nat)
    | Writing(req: nat)
    | Signal(req: nat, followup: Followup)
    | Flag(req: nat)
    | CheckList(req: nat)
    | DbWait(req: nat)
    | DbPop(req: nat)
    | Processing(req: nat, conn: Held)
    | DbPush(req: nat, mysql: nat)
    | DbPost(req: nat)

  datatype Followup = WaitAgain | RaiseFlag | GetConn

  datatype Held = Null | Conn(mysql: nat)

  /**
   The main thread. Loop: in `epoll_wait`. Append: at the locked section of `append`. Posting: before its
   `post`. Spin: in the `while (true)` on `_improv`. Seen: `_improv` was 1. Clear: about to reset it.
   */
  datatype Main =
    | Loop
    | Append(req: nat, io: Io)
    | Posting(req: nat, io: Io)
    | Spin(req: nat, io: Io)
    | Seen(req: nat)
    | Clear(req: nat)

  datatype State = State(
    queue: seq<nat>,
    sem: nat,
    maxRequests: nat,
    ioState: map<nat, Io>,
    improv: set<nat>,
    timerFlag: set<nat>,
    connList: seq<nat>,
    dbSem: nat,
    free: int,
    inUse: int,
    maxConn: nat,
    workers: seq<Pc>,
    main: Main)

  /**
   A step of the main thread or of a worker. `good` is the result of `read_once` or `write`; `reset` says that
   `write` ran `_init`, which clears both flags and sets `_io_state` to READ.
   */
  datatype Action =
    | Event(req: nat, io: Io)
    | Accept(req: nat)
    | MainStep
    | Worker(i: nat, good: bool, reset: bool)

  // ---- the steps ----

  predicate MainEnabled(s: State) {
    match s.main
    case Loop => false
    case Spin(req, _) => req in s.improv
    case _ => true
  }

  function MainMoves(s: State): State
    requires MainEnabled(s)
  {
    match s.main
    case Append(req, io) =>
      if |s.queue| >= s.maxRequests then s.(main := Spin(req, io))
      else s.(queue := s.queue + [req], ioState := s.ioState[req := io], main := Posting(req, io))
    case Posting(req, io) => s.(sem := s.sem + 1, main := Spin(req, io))
    case Spin(req, _) => s.(main := Seen(req))
    case Seen(req) => s.(timerFlag := s.timerFlag - {req}, main := Clear(req))
    case Clear(req) => s.(improv := s.improv - {req}, main := Loop)
    case Loop => s
  }

  predicate WorkerEnabled(s: State, i: nat) {
    i < |s.workers| &&
    match s.workers[i]
    case Waiting => s.sem > 0
    case DbWait(_) => s.dbSem > 0
    case DbPop(_) => s.connList != []
    case _ => true
  }

  /** Where a worker goes, for a step that changes nothing but its own place. */
  function NextPc(s: State, i: nat, good: bool): Pc
    requires WorkerEnabled(s, i)
  {
    match s.workers[i]
    case Waiting => Woken
    case Woken => if s.queue == [] then Waiting else Popped(s.queue[0])
    case Popped(req) => if req in s.ioState && s.ioState[req] == Write then Writing(req) else Reading(req)
    case Reading(req) => Signal(req, if good then GetConn else RaiseFlag)
    case Writing(req) => Signal(req, if good then WaitAgain else RaiseFlag)
    case Signal(req, followup) =>
      (match followup case WaitAgain => Waiting case RaiseFlag => Flag(req) case GetConn => CheckList(req))
    case Flag(_) => Waiting
    case CheckList(req) => if s.connList == [] then Processing(req, Null) else DbWait(req)
    case DbWait(req) => DbPop(req)
    case DbPop(req) => Processing(req, Conn(s.connList[0]))
    case Processing(req, held) => (match held case Null => Waiting case Conn(mysql) => DbPush(req, mysql))
    case DbPush(req, _) => DbPost(req)
    case DbPost(_) => Waiting
  }

  function WorkerMoves(s: State, i: nat, good: bool, reset: bool): State
    requires WorkerEnabled(s, i)
  {
    var s' := s.(workers := s.workers[i := NextPc(s, i, good)]);
    match s.workers[i]
    case Waiting => s'.(sem := s.sem - 1)
    case Woken => if s.queue == [] then s' else s'.(queue := s.queue[1..])
    case Writing(req) =>
      if reset then
        s'.(improv := s.improv - {req}, timerFlag := s.timerFlag - {req}, ioState := s.ioState[req := Read])
      else s'
    case Signal(req, _) => s'.(improv := s.improv + {req})
    case Flag(req) => s'.(timerFlag := s.timerFlag + {req})
    case DbWait(_) => s'.(dbSem := s.dbSem - 1)
    case DbPop(_) => s'.(connList := s.connList[1..], free := s.free - 1, inUse := s.inUse + 1)
    case DbPush(_, mysql) => s'.(connList := s.connList + [mysql], free := s.free + 1, inUse := s.inUse - 1)
    case DbPost(_) => s'.(dbSem := s.dbSem + 1)
    case _ => s'
  }

  predicate Enabled(s: State, a: Action) {
    match a
    case Event(_, _) => s.main == Loop
    case Accept(_) => s.main == Loop
    case MainStep => MainEnabled(s)
    case Worker(i, _, _) => WorkerEnabled(s, i)
  }

  function Step(s: State, a: Action): State
    requires Enabled(s, a)
  {
    match a
    case Event(req, io) => s.(main := Append(req, io))
    case Accept(req) =>
      s.(improv := s.improv - {req}, timerFlag := s.timerFlag - {req}, ioState := s.ioState[req := Read])
    case MainStep => MainMoves(s)
    case Worker(i, good, reset) => WorkerMoves(s, i, good, reset)
  }

  // ---- what is counted ----

  /** Before `_improv` is set, with a request. */
  predicate Pre(pc: Pc) {
    pc.Popped? || pc.Reading? || pc.Writing? || pc.Signal?
  }

  /** Between the pool's `wait` and its pop, or between its push and its `post`. */
  predicate DbInFlight(pc: Pc) {
    pc.DbPop? || pc.DbPost?
  }

  /** Between the pop of a connection and its push. */
  predicate Holding(pc: Pc) {
    (pc.Processing? && pc.conn.Conn?) || pc.DbPush?
  }

  function ConnOf(pc: Pc): multiset<nat> {
    if pc.Processing? && pc.conn.Conn? then multiset{pc.conn.mysql}
    else if pc.DbPush? then multiset{pc.mysql}
    else multiset{}
  }

  datatype Kind = IsWoken | IsPre | IsDbInFlight | IsHolding | IsUsingDb

  predicate Is(pc: Pc, k: Kind) {
    match k
    case IsWoken => pc.Woken?
    case IsPre => Pre(pc)
    case IsDbInFlight => DbInFlight(pc)
    case IsHolding => Holding(pc)
    case IsUsingDb => DbInFlight(pc) || Holding(pc)
  }

  function Flags(ws: seq<Pc>, k: Kind): (r: seq<bool>)
    ensures |r| == |ws| && forall i :: 0 <= i < |ws| ==> r[i] == Is(ws[i], k)
  {
    seq(|ws|, i requires 0 <= i < |ws| => Is(ws[i], k))
  }

  function Number(ws: seq<Pc>, k: Kind): nat {
    Count(Flags(ws, k))
  }

  function Conns(ws: seq<Pc>): (r: seq<multiset<nat>>)
    ensures |r| == |ws| && forall i :: 0 <= i < |ws| ==> r[i] == ConnOf(ws[i])
  {
    seq(|ws|, i requires 0 <= i < |ws| => ConnOf(ws[i]))
  }

  lemma NumberUpdate(ws: seq<Pc>, i: nat, pc: Pc, k: Kind)
    requires i < |ws|
    ensures Number(ws[i := pc], k) == Number(ws, k) - (if Is(ws[i], k) then 1 else 0) + (if Is(pc, k) then 1 else 0)
    ensures Is(ws[i], k) ==> Number(ws, k) > 0
  {
    var flags := Flags(ws, k);
    CountUpdate(flags, i, Is(pc, k));
    assert Flags(ws[i := pc], k) == flags[i := Is(pc, k)];
    if flags[i] && Count(flags) == 0 { CountNone(flags); }
  }

  lemma ConnsUpdate(ws: seq<Pc>, i: nat, pc: Pc)
    requires i < |ws|
    ensures Gather(Conns(ws[i := pc])) == Gather(Conns(ws)) - ConnOf(ws[i]) + ConnOf(pc)
    ensures ConnOf(ws[i]) <= Gather(Conns(ws))
  {
    GatherUpdate(Conns(ws), i, ConnOf(pc));
    assert Conns(ws[i := pc]) == Conns(ws)[i := ConnOf(pc)];
  }

  // ---- the connection pool ----

  /** The semaphore and the counters agree with the list and with the threads on their way. */
  predicate PoolCounts(s: State) {
    && s.dbSem + Number(s.workers, IsDbInFlight) == |s.connList|
    && s.free == |s.connList|
    && s.free + s.inUse == s.maxConn
    && s.inUse == Number(s.workers, IsHolding)
  }

  /** The connections in the list and in use are those the pool was built with. */
  predicate PoolConserved(s: State, all: multiset<nat>) {
    multiset(s.connList) + Gather(Conns(s.workers)) == all
  }

  predicate WaitsForDb(pc: Pc) {
    pc.DbWait? || pc.DbPop?
  }

  predicate SomeConns(s: State) {
    s.maxConn == 0 ==> forall i :: 0 <= i < |s.workers| ==> !WaitsForDb(s.workers[i])
  }

  predicate PoolInv(s: State, all: multiset<nat>) {
    PoolCounts(s) && PoolConserved(s, all) && SomeConns(s)
  }

  lemma PoolCountsKept(s: State, i: nat, good: bool, reset: bool)
    requires PoolCounts(s) && WorkerEnabled(s, i)
    ensures PoolCounts(WorkerMoves(s, i, good, reset))
  {
    hide Number;
    var pc := NextPc(s, i, good);
    NumberUpdate(s.workers, i, pc, IsDbInFlight);
    NumberUpdate(s.workers, i, pc, IsHolding);
  }

  /** What a step takes from the list it gives to the worker, and the other way round. */
  lemma ConnChangesHands(s: State, i: nat, good: bool, reset: bool)
    requires WorkerEnabled(s, i)
    ensures multiset(WorkerMoves(s, i, good, reset).connList) + ConnOf(NextPc(s, i, good)) ==
            multiset(s.connList) + ConnOf(s.workers[i])
  {
    hide WorkerMoves, NextPc;
    var l, pc := s.connList, s.workers[i];
    ListMoves(s, i, good, reset);
    if pc.DbPop? {
      FirstApart(l);
    } else if pc.DbPush? {
      LastApart(l, pc.mysql);
    }
  }

  lemma ListMoves(s: State, i: nat, good: bool, reset: bool)
    requires WorkerEnabled(s, i)
    ensures var pc, pc' := s.workers[i], NextPc(s, i, good);
      var l' := WorkerMoves(s, i, good, reset).connList;
      if pc.DbPop? then l' == s.connList[1..] && pc' == Processing(pc.req, Conn(s.connList[0]))
      else if pc.DbPush? then l' == s.connList + [pc.mysql] && pc' == DbPost(pc.req)
      else l' == s.connList && (Holding(pc) <==> Holding(pc')) &&
           (Holding(pc) ==> pc.Processing? && pc' == DbPush(pc.req, pc.conn.mysql))
  {
  }

  lemma FirstApart(l: seq<nat>)
    requires l != []
    ensures multiset(l[1..]) + multiset{l[0]} == multiset(l)
  {
    assert l == [l[0]] + l[1..];
  }

  lemma LastApart(l: seq<nat>, x: nat)
    ensures multiset(l + [x]) == multiset(l) + multiset{x}
  {
  }

  lemma MultisetMove(l: multiset<nat>, l': multiset<nat>, g: multiset<nat>, c: multiset<nat>, c': multiset<nat>)
    requires c <= g && l' + c' == l + c
    ensures l' + (g - c + c') == l + g
  {
    assert forall x :: l'[x] + c'[x] == (l' + c')[x] == (l + c)[x] == l[x] + c[x];
  }

  lemma PoolConservedKept(s: State, i: nat, good: bool, reset: bool, all: multiset<nat>)
    requires PoolConserved(s, all) && WorkerEnabled(s, i)
    ensures PoolConserved(WorkerMoves(s, i, good, reset), all)
  {
    hide Conns, Gather, ConnOf;
    var pc := NextPc(s, i, good);
    ConnsUpdate(s.workers, i, pc);
    ConnChangesHands(s, i, good, reset);
    MultisetMove(multiset(s.connList), multiset(WorkerMoves(s, i, good, reset).connList),
                 Gather(Conns(s.workers)), ConnOf(s.workers[i]), ConnOf(pc));
  }

  lemma SomeConnsKept(s: State, i: nat, good: bool, reset: bool)
    requires SomeConns(s) && PoolCounts(s) && WorkerEnabled(s, i)
    ensures SomeConns(WorkerMoves(s, i, good, reset))
  {
    hide Number;
  }

  lemma PoolKept(s: State, a: Action, all: multiset<nat>)
    requires PoolInv(s, all) && Enabled(s, a)
    ensures PoolInv(Step(s, a), all)
  {
    hide Number, Conns, Gather, WorkerMoves;
    if a.Worker? {
      PoolCountsKept(s, a.i, a.good, a.reset);
      PoolConservedKept(s, a.i, a.good, a.reset, all);
      SomeConnsKept(s, a.i, a.good, a.reset);
    }
  }

  /** A worker past the pool's `wait` finds a connection. */
  lemma FrontIsThere(s: State, i: nat)
    requires PoolCounts(s) && i < |s.workers| && s.workers[i].DbPop?
    ensures s.connList != [] && WorkerEnabled(s, i)
  {
    hide Number;
    NumberUpdate(s.workers, i, s.workers[i], IsDbInFlight);
  }

  /** When all connections differ, no two workers hold the same one and none that is held is in the list. */
  lemma HeldByOne(s: State, all: multiset<nat>)
    requires PoolConserved(s, all) && forall c :: all[c] <= 1
    ensures forall i, j :: 0 <= i < j < |s.workers| ==> ConnOf(s.workers[i]) !! ConnOf(s.workers[j])
    ensures forall i, c :: 0 <= i < |s.workers| && c in ConnOf(s.workers[i]) ==> c !in s.connList
  {
    var held := Conns(s.workers);
    forall i, j | 0 <= i < j < |s.workers|
      ensures ConnOf(s.workers[i]) !! ConnOf(s.workers[j])
    {
      GatherTwo(held, i, j);
      assert forall c :: held[i][c] + held[j][c] <= all[c];
    }
    forall i, c | 0 <= i < |s.workers| && c in ConnOf(s.workers[i])
      ensures c !in s.connList
    {
      GatherUpdate(held, i, held[i]);
      assert held[i][c] + multiset(s.connList)[c] <= all[c];
    }
  }

  /**
   With at least as many connections as workers, a worker that asks for one finds the list not empty and
   the pool's semaphore positive.
   */
  lemma EnoughConns(s: State, i: nat)
    requires PoolCounts(s) && |s.workers| <= s.maxConn && i < |s.workers|
    requires s.workers[i].CheckList? || s.workers[i].DbWait?
    ensures s.connList != [] && s.dbSem > 0
  {
    var ws := s.workers;
    var a, b := Flags(ws, IsDbInFlight), Flags(ws, IsHolding);
    // the asking worker is neither in flight nor holding, so those who are number fewer than the workers
    var a' := a[i := true];
    CountUpdate(a, i, true);
    CountApart(a', b);
  }

  // ---- the handshake between the main thread and a worker ----

  /** The request queue's semaphore announces each queued request, or its poster or taker is on the way. */
  predicate QueueCounts(s: State) {
    s.sem + Number(s.workers, IsWoken) + (if s.main.Posting? then 1 else 0) == |s.queue|
  }

  /** A worker has the request and does with it what the main thread asked for. */
  predicate WorksOn(pc: Pc, req: nat, io: Io) {
    Pre(pc) ==> pc.req == req && (pc.Reading? ==> io == Read) && (pc.Writing? ==> io == Write)
  }

  /** `_io_state` is as the main thread set it, until the worker that took the request has looked at it. */
  predicate AllWorkOn(s: State, req: nat, io: Io) {
    && (forall i :: 0 <= i < |s.workers| ==> WorksOn(s.workers[i], req, io))
    && (s.queue != [] || (exists i :: 0 <= i < |s.workers| && s.workers[i].Popped?) ==>
          req in s.ioState && s.ioState[req] == io)
  }

  predicate Queued(s: State, req: nat) {
    s.queue == [req] && Number(s.workers, IsPre) == 0 && s.improv == {}
  }

  predicate TakenByOne(s: State) {
    s.queue == [] && Number(s.workers, IsPre) == 1 && s.improv == {}
  }

  predicate Signalled(s: State, req: nat) {
    s.queue == [] && Number(s.workers, IsPre) == 0 && s.improv == {req}
  }

  predicate Quiet(s: State) {
    s.queue == [] && Number(s.workers, IsPre) == 0 && s.improv == {}
  }

  /** Where the connection is that the main thread is dealing with. */
  predicate Handshake(s: State) {
    match s.main
    case Loop => Quiet(s)
    case Append(_, _) => Quiet(s)
    case Posting(req, io) => Queued(s, req) && AllWorkOn(s, req, io)
    case Spin(req, io) => AllWorkOn(s, req, io) && (Queued(s, req) || TakenByOne(s) || Signalled(s, req))
    case Seen(req) => Signalled(s, req)
    case Clear(req) => Signalled(s, req)
  }

  predicate Inv(s: State, all: multiset<nat>) {
    PoolInv(s, all) && QueueCounts(s) && Handshake(s) && s.maxRequests > 0
  }

  lemma QueueCountsKept(s: State, i: nat, good: bool, reset: bool)
    requires QueueCounts(s) && WorkerEnabled(s, i)
    ensures QueueCounts(WorkerMoves(s, i, good, reset))
    ensures s.workers[i].Woken? ==> s.queue != [] && (s.main.Posting? ==> |s.queue| >= 2)
  {
    hide Number;
    NumberUpdate(s.workers, i, NextPc(s, i, good), IsWoken);
  }

  lemma NobodyPre(s: State)
    requires Number(s.workers, IsPre) == 0
    ensures forall i :: 0 <= i < |s.workers| ==> !Pre(s.workers[i])
  {
    CountNone(Flags(s.workers, IsPre));
    assert forall i :: 0 <= i < |s.workers| ==> Flags(s.workers, IsPre)[i] == Is(s.workers[i], IsPre);
  }

  lemma OnlyOnePre(s: State, i: nat, pc: Pc)
    requires i < |s.workers| && Pre(s.workers[i]) && Number(s.workers, IsPre) == 1 && !Pre(pc)
    ensures Number(s.workers[i := pc], IsPre) == 0
    ensures forall j :: 0 <= j < |s.workers| && j != i ==> !Pre(s.workers[j])
  {
    NumberUpdate(s.workers, i, pc, IsPre);
    var t := s.(workers := s.workers[i := pc]);
    NobodyPre(t);
    assert forall j :: 0 <= j < |s.workers| && j != i ==> t.workers[j] == s.workers[j];
  }

  lemma WorkerKeepsJob(s: State, i: nat, good: bool, reset: bool, req: nat, io: Io)
    requires AllWorkOn(s, req, io) && WorkerEnabled(s, i)
    requires s.workers[i].Woken? ==> s.queue == [req]
    requires s.workers[i].Writing? ==>
      s.queue == [] && forall j :: 0 <= j < |s.workers| && j != i ==> !Pre(s.workers[j])
    ensures AllWorkOn(WorkerMoves(s, i, good, reset), req, io)
  {
    var t := WorkerMoves(s, i, good, reset);
    assert forall j :: 0 <= j < |s.workers| && j != i ==> t.workers[j] == s.workers[j];
  }

  lemma HandshakeKeptByWorker(s: State, i: nat, good: bool, reset: bool)
    requires QueueCounts(s) && Handshake(s) && WorkerEnabled(s, i)
    ensures Handshake(WorkerMoves(s, i, good, reset))
  {
    hide Number, AllWorkOn;
    QueueCountsKept(s, i, good, reset);
    NumberUpdate(s.workers, i, NextPc(s, i, good), IsPre);
    if s.main.Posting? || s.main.Spin? {
      JobOfPre(s, i, s.main.req, s.main.io);
      if s.workers[i].Writing? { OnlyOnePre(s, i, Waiting); }
      WorkerKeepsJob(s, i, good, reset, s.main.req, s.main.io);
    }
  }

  lemma JobOfPre(s: State, i: nat, req: nat, io: Io)
    requires AllWorkOn(s, req, io) && i < |s.workers|
    ensures Pre(s.workers[i]) ==> s.workers[i].req == req
  {
  }

  lemma HandshakeKeptByMain(s: State)
    requires QueueCounts(s) && Handshake(s) && MainEnabled(s) && s.maxRequests > 0
    ensures Handshake(MainMoves(s)) && QueueCounts(MainMoves(s))
  {
    hide Number;
    if s.main.Append? { NobodyPre(s); }
  }

  lemma StepKeepsInv(s: State, a: Action, all: multiset<nat>)
    requires Inv(s, all) && Enabled(s, a)
    ensures Inv(Step(s, a), all)
  {
    hide Number, PoolInv, Handshake, MainMoves, WorkerMoves;
    PoolKept(s, a, all);
    match a
    case Worker(i, good, reset) =>
      QueueCountsKept(s, i, good, reset);
      HandshakeKeptByWorker(s, i, good, reset);
      MaxKept(s, a);
    case MainStep =>
      HandshakeKeptByMain(s);
      MaxKept(s, a);
    case _ =>
      OtherKept(s, a);
  }

  lemma OtherKept(s: State, a: Action)
    requires QueueCounts(s) && Handshake(s) && Enabled(s, a) && (a.Event? || a.Accept?)
    ensures QueueCounts(Step(s, a)) && Handshake(Step(s, a)) && Step(s, a).maxRequests == s.maxRequests
  {
    hide Number;
  }

  lemma MaxKept(s: State, a: Action)
    requires Enabled(s, a)
    ensures Step(s, a).maxRequests == s.maxRequests && Step(s, a).maxConn == s.maxConn
    ensures |Step(s, a).workers| == |s.workers|
  {
  }

  // ---- whole runs ----

  /** Every worker at its first `wait`, the pool filled by `init`, nothing received yet. */
  function Start(workers: nat, conns: seq<nat>, maxRequests: nat): State {
    State([], 0, maxRequests, map[], {}, {}, conns, |conns|, |conns|, 0, |conns|, seq(workers, _ => Waiting), Loop)
  }

  /** The state after these steps, if each was possible in its turn. */
  function After(s: State, run: seq<Action>): (r: seq<State>)
    ensures |r| <= 1
    decreases |run|
  {
    if run == [] then [s]
    else
      var before := After(s, run[..|run| - 1]);
      var a := run[|run| - 1];
      if before != [] && Enabled(before[0], a) then [Step(before[0], a)] else []
  }

  predicate Reaches(s: State, run: seq<Action>, t: State) {
    After(s, run) == [t]
  }

  lemma NobodyStarted(workers: nat, conns: seq<nat>, maxRequests: nat)
    requires maxRequests > 0
    ensures Inv(Start(workers, conns, maxRequests), multiset(conns))
  {
    hide Number, Gather, Conns;
    var s := Start(workers, conns, maxRequests);
    AllWaiting(s.workers, IsWoken);
    AllWaiting(s.workers, IsPre);
    AllWaiting(s.workers, IsDbInFlight);
    AllWaiting(s.workers, IsHolding);
    NothingHeld(Conns(s.workers));
  }

  lemma AllWaiting(ws: seq<Pc>, k: Kind)
    requires forall i :: 0 <= i < |ws| ==> ws[i] == Waiting
    ensures Number(ws, k) == 0
  {
    if Number(ws, k) > 0 {
      var i := CountSome(Flags(ws, k));
    }
  }

  lemma {:induction false} NothingHeld(held: seq<multiset<nat>>)
    requires forall i :: 0 <= i < |held| ==> held[i] == multiset{}
    ensures Gather(held) == multiset{}
    decreases |held|
  {
    if held != [] { NothingHeld(held[..|held| - 1]); }
  }

  lemma {:induction false} RunKeepsInv(workers: nat, conns: seq<nat>, maxRequests: nat, run: seq<Action>, t: State)
    requires maxRequests > 0 && Reaches(Start(workers, conns, maxRequests), run, t)
    ensures Inv(t, multiset(conns))
    ensures |t.workers| == workers && t.maxConn == |conns| && t.maxRequests == maxRequests
    decreases |run|
  {
    hide Inv, Step, Enabled;
    if run == [] {
      NobodyStarted(workers, conns, maxRequests);
    } else {
      var before := After(Start(workers, conns, maxRequests), run[..|run| - 1]);
      var a := run[|run| - 1];
      RunKeepsInv(workers, conns, maxRequests, run[..|run| - 1], before[0]);
      StepKeepsInv(before[0], a, multiset(conns));
      MaxKept(before[0], a);
    }
  }

  /**
   In every interleaving: while the main thread spins on a connection, that connection is queued, or one
   worker has it and has not signalled, or `_improv` is set, and exactly one of these holds. So the queue never
   holds more than one request, `append` never fails, and a woken worker always finds a request.
   */
  lemma HandshakeIsSafe(workers: nat, conns: seq<nat>, maxRequests: nat, run: seq<Action>, t: State)
    requires maxRequests > 0 && Reaches(Start(workers, conns, maxRequests), run, t)
    ensures |t.queue| <= 1
    ensures t.main.Append? ==> |t.queue| < t.maxRequests
    ensures forall i :: 0 <= i < |t.workers| && t.workers[i].Woken? ==> t.queue != []
    ensures t.main.Spin? ==>
      var req := t.main.req;
      var queued := req in t.queue;
      var taken := exists i :: 0 <= i < |t.workers| && Pre(t.workers[i]) && t.workers[i].req == req;
      var signalled := req in t.improv;
      && (queued || taken || signalled)
      && !(queued && taken) && !(queued && signalled) && !(taken && signalled)
      && (forall i, j :: 0 <= i < j < |t.workers| ==> !(Pre(t.workers[i]) && Pre(t.workers[j])))
      && (forall i :: 0 <= i < |t.workers| ==> WorksOn(t.workers[i], req, t.main.io))
  {
    RunKeepsInv(workers, conns, maxRequests, run, t);
    forall i | 0 <= i < |t.workers| && t.workers[i].Woken?
      ensures t.queue != []
    {
      QueueCountsKept(t, i, true, false);
    }
    if t.main.Spin? {
      WhereSpun(t);
    }
  }

  lemma WhereSpun(t: State)
    requires Handshake(t) && t.main.Spin?
    ensures var req := t.main.req;
      var queued := req in t.queue;
      var taken := exists i :: 0 <= i < |t.workers| && Pre(t.workers[i]) && t.workers[i].req == req;
      var signalled := req in t.improv;
      && (queued || taken || signalled)
      && !(queued && taken) && !(queued && signalled) && !(taken && signalled)
      && (forall i, j :: 0 <= i < j < |t.workers| ==> !(Pre(t.workers[i]) && Pre(t.workers[j])))
  {
    if Number(t.workers, IsPre) == 0 {
      NobodyPre(t);
    } else {
      var i := CountSome(Flags(t.workers, IsPre));
      OnlyOnePre(t, i, Waiting);
      assert Pre(t.workers[i]) && t.workers[i].req == t.main.req;
    }
  }

  /**
   In every interleaving: the pool's list is as long as its counter of free connections, free and used ones
   make up all, a worker past the semaphore finds the list not empty, and when the connections differ no two
   workers hold the same one and no held one is in the list.
   */
  lemma PoolIsSafe(workers: nat, conns: seq<nat>, maxRequests: nat, run: seq<Action>, t: State)
    requires maxRequests > 0 && Reaches(Start(workers, conns, maxRequests), run, t)
    ensures t.dbSem + Number(t.workers, IsDbInFlight) == |t.connList| == t.free
    ensures t.free + t.inUse == |conns| && t.inUse == Number(t.workers, IsHolding)
    ensures multiset(t.connList) + Gather(Conns(t.workers)) == multiset(conns)
    ensures forall i :: 0 <= i < |t.workers| && t.workers[i].DbPop? ==> t.connList != []
    ensures (forall c :: multiset(conns)[c] <= 1) ==>
      && (forall i, j :: 0 <= i < j < |t.workers| ==> ConnOf(t.workers[i]) !! ConnOf(t.workers[j]))
      && (forall i, c :: 0 <= i < |t.workers| && c in ConnOf(t.workers[i]) ==> c !in t.connList)
  {
    hide Number, Conns, Gather;
    RunKeepsInv(workers, conns, maxRequests, run, t);
    forall i | 0 <= i < |t.workers| && t.workers[i].DbPop?
      ensures t.connList != []
    {
      FrontIsThere(t, i);
    }
    if forall c :: multiset(conns)[c] <= 1 {
      HeldByOne(t, multiset(conns));
    }
  }

  // ---- as many connections as workers ----

  predicate NobodyWithout(s: State) {
    forall i :: 0 <= i < |s.workers| ==> !(s.workers[i].Processing? && s.workers[i].conn.Null?)
  }

  lemma {:induction false} NoNullConnection(workers: nat, conns: seq<nat>, maxRequests: nat, run: seq<Action>, t: State)
    requires maxRequests > 0 && workers <= |conns| && Reaches(Start(workers, conns, maxRequests), run, t)
    ensures NobodyWithout(t)
    decreases |run|
  {
    if run != [] {
      var s := After(Start(workers, conns, maxRequests), run[..|run| - 1])[0];
      var a := run[|run| - 1];
      NoNullConnection(workers, conns, maxRequests, run[..|run| - 1], s);
      RunKeepsInv(workers, conns, maxRequests, run[..|run| - 1], s);
      NoNullKept(s, a);
    }
  }

  lemma NoNullKept(s: State, a: Action)
    requires NobodyWithout(s) && PoolCounts(s) && |s.workers| <= s.maxConn && Enabled(s, a)
    ensures NobodyWithout(Step(s, a))
  {
    hide PoolCounts;
    if a.Worker? && s.workers[a.i].CheckList? {
      EnoughConns(s, a.i);
    }
  }

  /**
   With at least as many connections as workers, in every interleaving: no worker is ever given the null
   pointer, the size check never fails, and the pool's `wait` never blocks.
   */
  lemma PoolSuffices(workers: nat, conns: seq<nat>, maxRequests: nat, run: seq<Action>, t: State, i: nat)
    requires maxRequests > 0 && workers <= |conns| && Reaches(Start(workers, conns, maxRequests), run, t)
    requires i < |t.workers|
    ensures !(t.workers[i].Processing? && t.workers[i].conn.Null?)
    ensures t.workers[i].CheckList? ==> t.connList != []
    ensures t.workers[i].DbWait? ==> t.dbSem > 0
  {
    NoNullConnection(workers, conns, maxRequests, run, t);
    RunKeepsInv(workers, conns, maxRequests, run, t);
    if t.workers[i].CheckList? || t.workers[i].DbWait? {
      EnoughConns(t, i);
    }
  }

  // ---- the spin ends ----

  /** How many steps a worker can take before it waits for a request again, at most. */
  function Remaining(pc: Pc): nat {
    match pc
    case Waiting => 0
    case Woken => 11
    case Popped(_) => 10
    case Reading(_) => 9
    case Writing(_) => 9
    case Signal(_, _) => 8
    case CheckList(_) => 7
    case DbWait(_) => 6
    case DbPop(_) => 5
    case Processing(_, _) => 4
    case DbPush(_, _) => 3
    case DbPost(_) => 2
    case Flag(_) => 1
  }

  function Remainders(ws: seq<Pc>): (r: seq<nat>)
    ensures |r| == |ws| && forall i :: 0 <= i < |ws| ==> r[i] == Remaining(ws[i])
  {
    seq(|ws|, i requires 0 <= i < |ws| => Remaining(ws[i]))
  }

  /** All that the workers can still do by themselves. */
  function Rank(s: State): nat {
    Sum(Remainders(s.workers)) + 12 * s.sem
  }

  lemma WorkerUsesRank(s: State, i: nat, good: bool, reset: bool)
    requires WorkerEnabled(s, i)
    ensures Rank(WorkerMoves(s, i, good, reset)) < Rank(s)
  {
    hide Sum;
    var pc := NextPc(s, i, good);
    SumUpdate(Remainders(s.workers), i, Remaining(pc));
    assert Remainders(s.workers[i := pc]) == Remainders(s.workers)[i := Remaining(pc)];
  }

  /** While a connection is spun on and not signalled, some worker can take a step. */
  lemma SomebodyCanMove(s: State, all: multiset<nat>) returns (i: nat)
    requires Inv(s, all) && s.main.Spin? && s.main.req !in s.improv && s.workers != []
    ensures WorkerEnabled(s, i)
  {
    if TakenByOne(s) {
      i := CountSome(Flags(s.workers, IsPre));
    } else if Number(s.workers, IsWoken) > 0 {
      i := CountSome(Flags(s.workers, IsWoken));
    } else {
      i := NotAllWaitForDb(s);
    }
  }

  /** A worker that waits for a connection waits for another worker that can move. */
  lemma NotAllWaitForDb(s: State) returns (i: nat)
    requires PoolCounts(s) && SomeConns(s) && s.workers != [] && s.sem > 0
    ensures WorkerEnabled(s, i)
  {
    i := 0;
    if s.workers[0].DbPop? {
      FrontIsThere(s, 0);
    } else if s.workers[0].DbWait? && s.dbSem == 0 {
      if Number(s.workers, IsDbInFlight) > 0 {
        i := CountSome(Flags(s.workers, IsDbInFlight));
        if s.workers[i].DbPop? { FrontIsThere(s, i); }
      } else {
        i := CountSome(Flags(s.workers, IsHolding));
      }
    }
  }

  predicate OnlyWorkers(run: seq<Action>) {
    forall k :: 0 <= k < |run| ==> run[k].Worker?
  }

  lemma {:induction false} WorkersRunDown(s: State, run: seq<Action>, t: State)
    requires OnlyWorkers(run) && Reaches(s, run, t)
    ensures |run| + Rank(t) <= Rank(s) && t.main == s.main && |t.workers| == |s.workers|
    decreases |run|
  {
    hide WorkerMoves, Rank;
    if run != [] {
      var a := run[|run| - 1];
      var before := After(s, run[..|run| - 1])[0];
      WorkersRunDown(s, run[..|run| - 1], before);
      WorkerUsesRank(before, a.i, a.good, a.reset);
      MainStays(before, a.i, a.good, a.reset);
    }
  }

  lemma MainStays(s: State, i: nat, good: bool, reset: bool)
    requires WorkerEnabled(s, i)
    ensures WorkerMoves(s, i, good, reset).main == s.main && |WorkerMoves(s, i, good, reset).workers| == |s.workers|
  {
  }

  lemma {:induction false} WorkersKeepInv(s: State, run: seq<Action>, t: State, all: multiset<nat>)
    requires Inv(s, all) && Reaches(s, run, t)
    ensures Inv(t, all)
    decreases |run|
  {
    hide Inv, Step, Enabled;
    if run != [] {
      var before := After(s, run[..|run| - 1])[0];
      WorkersKeepInv(s, run[..|run| - 1], before, all);
      StepKeepsInv(before, run[|run| - 1], all);
    }
  }

  /**
   The spin ends, whichever workers run and in whatever order: after any run of worker steps the signal has
   come or some worker can move, and no such run is longer than the rank of the state it starts from.
   */
  lemma SpinEnds(workers: nat, conns: seq<nat>, maxRequests: nat, run: seq<Action>, s: State,
                 more: seq<Action>, t: State)
    requires maxRequests > 0 && workers > 0 && Reaches(Start(workers, conns, maxRequests), run, s) && s.main.Spin?
    requires OnlyWorkers(more) && Reaches(s, more, t)
    ensures |more| <= Rank(s)
    ensures t.main == s.main
    ensures t.main.req in t.improv || exists i :: WorkerEnabled(t, i)
  {
    hide Inv, Rank;
    RunKeepsInv(workers, conns, maxRequests, run, s);
    WorkersRunDown(s, more, t);
    WorkersKeepInv(s, more, t, multiset(conns));
    if t.main.req !in t.improv {
      var i := SomebodyCanMove(t, multiset(conns));
    }
  }

  // ---- the right job, and its result ----

  /** The last event that the main thread was given. */
  function LastEvent(run: seq<Action>): (e: seq<Action>)
    ensures |e| <= 1 && (e != [] ==> e[0].Event? && e[0] in run)
    decreases |run|
  {
    if run == [] then []
    else if run[|run| - 1].Event? then [run[|run| - 1]]
    else LastEvent(run[..|run| - 1])
  }

  /** In every interleaving, what the main thread appends and waits for is the event it was last given. */
  lemma {:induction false} JobIsTheEvent(workers: nat, conns: seq<nat>, maxRequests: nat, run: seq<Action>, t: State)
    requires Reaches(Start(workers, conns, maxRequests), run, t)
    ensures t.main.Append? || t.main.Posting? || t.main.Spin? ==>
      LastEvent(run) == [Event(t.main.req, t.main.io)]
    ensures t.main.Seen? || t.main.Clear? ==> LastEvent(run) != [] && LastEvent(run)[0].req == t.main.req
    decreases |run|
  {
    if run != [] {
      var before := After(Start(workers, conns, maxRequests), run[..|run| - 1])[0];
      JobIsTheEvent(workers, conns, maxRequests, run[..|run| - 1], before);
      if run[|run| - 1].Worker? { MainStays(before, run[|run| - 1].i, run[|run| - 1].good, run[|run| - 1].reset); }
    }
  }

  /** A `read_once` or a `write` that a worker has done, and whether it succeeded. */
  datatype Done = Done(req: nat, io: Io, good: bool)

  /** The last one of worker `i`. */
  function LastDone(s: State, run: seq<Action>, i: nat): (d: seq<Done>)
    ensures |d| <= 1
    decreases |run|
  {
    if run == [] then []
    else
      var before, a := After(s, run[..|run| - 1]), run[|run| - 1];
      if a.Worker? && a.i == i && before != [] && i < |before[0].workers| && before[0].workers[i].Reading? then
        [Done(before[0].workers[i].req, Read, a.good)]
      else if a.Worker? && a.i == i && before != [] && i < |before[0].workers| && before[0].workers[i].Writing? then
        [Done(before[0].workers[i].req, Write, a.good)]
      else LastDone(s, run[..|run| - 1], i)
  }

  /** What a worker that is past its `read_once` or `write` goes on to do fits the result. */
  predicate Fits(pc: Pc, done: seq<Done>) {
    match pc
    case Signal(req, followup) =>
      && |done| == 1 && done[0].req == req
      && (followup == GetConn <==> done[0].good && done[0].io == Read)
      && (followup == WaitAgain <==> done[0].good && done[0].io == Write)
    case Flag(req) => |done| == 1 && done[0].req == req && !done[0].good
    case CheckList(req) => done == [Done(req, Read, true)]
    case DbWait(req) => done == [Done(req, Read, true)]
    case DbPop(req) => done == [Done(req, Read, true)]
    case Processing(req, _) => done == [Done(req, Read, true)]
    case DbPush(req, _) => done == [Done(req, Read, true)]
    case DbPost(req) => done == [Done(req, Read, true)]
    case _ => true
  }

  /**
   In every interleaving: a worker takes a MySQL connection and processes exactly after a good read of its own
   request, raises the timer's flag exactly after a failed read or write, and goes back to waiting after a good
   write.
   */
  lemma {:induction false} ResultDecides(workers: nat, conns: seq<nat>, maxRequests: nat, run: seq<Action>, t: State,
                                         i: nat)
    requires Reaches(Start(workers, conns, maxRequests), run, t) && i < |t.workers|
    ensures Fits(t.workers[i], LastDone(Start(workers, conns, maxRequests), run, i))
    decreases |run|
  {
    if run != [] {
      var s := Start(workers, conns, maxRequests);
      var before, a := After(s, run[..|run| - 1])[0], run[|run| - 1];
      MaxKept(before, a);
      ResultDecides(workers, conns, maxRequests, run[..|run| - 1], before, i);
      FitsOn(before, a, i, LastDone(s, run[..|run| - 1], i));
    }
  }

  lemma FitsOn(s: State, a: Action, i: nat, done: seq<Done>)
    requires Enabled(s, a) && i < |s.workers| && |Step(s, a).workers| == |s.workers| && Fits(s.workers[i], done)
    ensures var pc, pc' := s.workers[i], Step(s, a).workers[i];
      var moves := a.Worker? && a.i == i;
      Fits(pc', if moves && pc.Reading? then [Done(pc.req, Read, a.good)]
                else if moves && pc.Writing? then [Done(pc.req, Write, a.good)]
                else done)
  {
  }

  /**
   Who changes what: the queue, `_io_state`, both semaphores, the flags, the pool's list and its counters, each by
   the steps that are named and by no other.
   */
  lemma WorkerChanges(s: State, i: nat, good: bool, reset: bool)
    requires WorkerEnabled(s, i)
    ensures var pc, t := s.workers[i], WorkerMoves(s, i, good, reset);
      var clears := pc.Writing? && reset;
      && t.queue == (if pc.Woken? && s.queue != [] then s.queue[1..] else s.queue)
      && t.sem == (if pc.Waiting? then s.sem - 1 else s.sem)
      && t.ioState == (if clears then s.ioState[pc.req := Read] else s.ioState)
      && t.improv == (if pc.Signal? then s.improv + {pc.req} else if clears then s.improv - {pc.req} else s.improv)
      && t.timerFlag ==
         (if pc.Flag? then s.timerFlag + {pc.req} else if clears then s.timerFlag - {pc.req} else s.timerFlag)
      && t.dbSem == (if pc.DbWait? then s.dbSem - 1 else if pc.DbPost? then s.dbSem + 1 else s.dbSem)
      && t.connList ==
         (if pc.DbPop? then s.connList[1..] else if pc.DbPush? then s.connList + [pc.mysql] else s.connList)
      && t.main == s.main && (forall j :: 0 <= j < |s.workers| && j != i ==> t.workers[j] == s.workers[j])
    ensures s.workers[i].Woken? && s.queue != [] ==>
      WorkerMoves(s, i, good, reset).workers[i] == Popped(s.queue[0])
    ensures s.workers[i].CheckList? && s.connList == [] ==>
      WorkerMoves(s, i, good, reset).workers[i] == Processing(s.workers[i].req, Null)
    ensures s.workers[i].DbPop? ==>
      WorkerMoves(s, i, good, reset).workers[i] == Processing(s.workers[i].req, Conn(s.connList[0]))
  {
  }

  /** The same for the main thread: an append, its `post`, the look at `_improv`, and the two resets, in that order. */
  lemma MainChanges(s: State)
    requires MainEnabled(s)
    ensures var t := MainMoves(s);
      var full := |s.queue| >= s.maxRequests;
      && t.queue == (if s.main.Append? && !full then s.queue + [s.main.req] else s.queue)
      && t.ioState == (if s.main.Append? && !full then s.ioState[s.main.req := s.main.io] else s.ioState)
      && t.sem == (if s.main.Posting? then s.sem + 1 else s.sem)
      && t.timerFlag == (if s.main.Seen? then s.timerFlag - {s.main.req} else s.timerFlag)
      && t.improv == (if s.main.Clear? then s.improv - {s.main.req} else s.improv)
      && t.workers == s.workers && t.connList == s.connList && t.dbSem == s.dbSem
      && (s.main.Spin? ==> s.main.req in s.improv && t.main == Seen(s.main.req))
      && (s.main.Append? ==> t.main == if full then Spin(s.main.req, s.main.io) else Posting(s.main.req, s.main.io))
      && (s.main.Seen? ==> t.main == Clear(s.main.req)) && (s.main.Clear? ==> t.main == Loop)
  {
  }

  /** A connection that has just been accepted has both flags down and waits to be read. */
  lemma AcceptResets(s: State, req: nat)
    requires s.main == Loop
    ensures var t := Step(s, Accept(req));
      && t == s.(improv := t.improv, timerFlag := t.timerFlag, ioState := t.ioState)
      && t.improv == s.improv - {req} && t.timerFlag == s.timerFlag - {req} && t.ioState == s.ioState[req := Read]
  {
  }

  // ---- one job from its result to the end ----

  /** `n` steps of worker `i` in a row. */
  function Steps(i: nat, good: bool, n: nat): (run: seq<Action>)
    ensures |run| == n && forall k :: 0 <= k < n ==> run[k] == Worker(i, good, false)
  {
    seq(n, _ => Worker(i, good, false))
  }

  lemma {:induction false} StepsMore(s: State, i: nat, good: bool, n: nat, t: State)
    requires After(s, Steps(i, good, n)) == [t] && WorkerEnabled(t, i)
    ensures After(s, Steps(i, good, n + 1)) == [WorkerMoves(t, i, good, false)]
  {
    hide WorkerMoves;
    assert Steps(i, good, n + 1)[..n] == Steps(i, good, n);
  }

  /** The state `s`, but with worker `i` at `pc`. */
  function With(s: State, i: nat, pc: Pc): (t: State)
    requires i < |s.workers|
    ensures |t.workers| == |s.workers| && t.workers[i] == pc
  {
    s.(workers := s.workers[i := pc])
  }

  lemma {:induction false} WithTwice(s: State, i: nat, pc: Pc, again: Pc)
    requires i < |s.workers|
    ensures With(With(s, i, pc), i, again) == With(s, i, again)
  {
    assert s.workers[i := pc][i := again] == s.workers[i := again];
  }

  /** One more step, from a state that is `s` but for the place of worker `i`, to one that is `u` but for it. */
  lemma {:induction false} OnTo(s0: State, i: nat, good: bool, n: nat, s: State, pc: Pc, u: State, next: Pc)
    requires i < |s.workers| && u.workers == s.workers && After(s0, Steps(i, good, n)) == [With(s, i, pc)]
    requires WorkerEnabled(With(s, i, pc), i)
    requires WorkerMoves(With(s, i, pc), i, good, false) == With(With(u, i, pc), i, next)
    ensures After(s0, Steps(i, good, n + 1)) == [With(u, i, next)]
  {
    hide WorkerMoves, WorkerEnabled;
    StepsMore(s0, i, good, n, With(s, i, pc));
    WithTwice(u, i, pc, next);
  }

  lemma {:induction false} AtStart(s: State, i: nat, good: bool)
    requires i < |s.workers|
    ensures After(s, Steps(i, good, 0)) == [With(s, i, s.workers[i])]
  {
    assert s.workers[i := s.workers[i]] == s.workers;
  }

  /**
   After a good read the worker signals, takes the connection that has been free the longest, processes the request
   with it, and gives it back.
   */
  lemma {:induction false} GoodReadIsProcessed(s: State, i: nat)
    requires i < |s.workers| && s.workers[i].Reading? && s.connList != [] && s.dbSem > 0
    ensures var req, first := s.workers[i].req, s.connList[0];
      var shared := s.(improv := s.improv + {req});
      && After(s, Steps(i, true, 5)) ==
         [With(shared.(connList := s.connList[1..], dbSem := s.dbSem - 1, free := s.free - 1, inUse := s.inUse + 1),
               i, Processing(req, Conn(first)))]
      && After(s, Steps(i, true, 8)) == [With(shared.(connList := s.connList[1..] + [first]), i, Waiting)]
  {
    hide After, Steps, WorkerMoves, NextPc, WorkerEnabled;
    var req, first := s.workers[i].req, s.connList[0];
    AsksForConn(s, i);
    var u := s.(improv := s.improv + {req}, dbSem := s.dbSem - 1);
    UsesConn(s, i, u, req);
  }

  lemma {:induction false} AsksForConn(s: State, i: nat)
    requires i < |s.workers| && s.workers[i].Reading? && s.connList != [] && s.dbSem > 0
    ensures var req := s.workers[i].req;
      After(s, Steps(i, true, 4)) == [With(s.(improv := s.improv + {req}, dbSem := s.dbSem - 1), i, DbPop(req))]
  {
    hide After, Steps;
    var req := s.workers[i].req;
    AtStart(s, i, true);
    OnTo(s, i, true, 0, s, Reading(req), s, Signal(req, GetConn));
    var t := s.(improv := s.improv + {req});
    OnTo(s, i, true, 1, s, Signal(req, GetConn), t, CheckList(req));
    OnTo(s, i, true, 2, t, CheckList(req), t, DbWait(req));
    OnTo(s, i, true, 3, t, DbWait(req), t.(dbSem := s.dbSem - 1), DbPop(req));
  }

  lemma {:induction false} UsesConn(s0: State, i: nat, u: State, req: nat)
    requires i < |u.workers| && u.connList != []
    requires After(s0, Steps(i, true, 4)) == [With(u, i, DbPop(req))]
    ensures var first := u.connList[0];
      && After(s0, Steps(i, true, 5)) ==
         [With(u.(connList := u.connList[1..], free := u.free - 1, inUse := u.inUse + 1),
               i, Processing(req, Conn(first)))]
      && After(s0, Steps(i, true, 8)) ==
         [With(u.(connList := u.connList[1..] + [first], dbSem := u.dbSem + 1), i, Waiting)]
  {
    hide After, Steps;
    var first := u.connList[0];
    var v := u.(connList := u.connList[1..], free := u.free - 1, inUse := u.inUse + 1);
    OnTo(s0, i, true, 4, u, DbPop(req), v, Processing(req, Conn(first)));
    OnTo(s0, i, true, 5, v, Processing(req, Conn(first)), v, DbPush(req, first));
    var w := u.(connList := u.connList[1..] + [first]);
    OnTo(s0, i, true, 6, v, DbPush(req, first), w, DbPost(req));
    OnTo(s0, i, true, 7, w, DbPost(req), w.(dbSem := u.dbSem + 1), Waiting);
  }

  /** After a failed read or write the worker signals, raises the timer's flag and waits again. */
  lemma {:induction false} FailureRaisesFlag(s: State, i: nat)
    requires i < |s.workers| && (s.workers[i].Reading? || s.workers[i].Writing?)
    ensures var req := s.workers[i].req;
      After(s, Steps(i, false, 3)) ==
        [With(s.(improv := s.improv + {req}, timerFlag := s.timerFlag + {req}), i, Waiting)]
  {
    hide After, Steps;
    var req := s.workers[i].req;
    AtStart(s, i, false);
    OnTo(s, i, false, 0, s, s.workers[i], s, Signal(req, RaiseFlag));
    var t := s.(improv := s.improv + {req});
    OnTo(s, i, false, 1, s, Signal(req, RaiseFlag), t, Flag(req));
    OnTo(s, i, false, 2, t, Flag(req), t.(timerFlag := s.timerFlag + {req}), Waiting);
  }

  /** After a good write the worker signals and waits again. */
  lemma {:induction false} GoodWriteIsSignalled(s: State, i: nat)
    requires i < |s.workers| && s.workers[i].Writing?
    ensures After(s, Steps(i, true, 2)) == [With(s.(improv := s.improv + {s.workers[i].req}), i, Waiting)]
  {
    hide After, Steps;
    var req := s.workers[i].req;
    AtStart(s, i, true);
    OnTo(s, i, true, 0, s, Writing(req), s, Signal(req, WaitAgain));
    OnTo(s, i, true, 1, s, Signal(req, WaitAgain), s.(improv := s.improv + {req}), Waiting);
  }
}
