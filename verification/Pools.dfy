/**
 `ConnectionPool` and `ThreadPool` as the objects they are. Each atomic section of their methods does to the
 object's fields what the corresponding step of the system in Reactor.dfy does to the state.
 */
module Pools {
  import opened Options
  import opened Reactor

  class ConnectionPool {
    var connList: seq<nat>
    var sem: nat
    var freeConnNums: int
    var curConnNums: int
    var maxConnNums: int

    constructor ()
      ensures connList == [] && freeConnNums == 0 && curConnNums == 0
    {
      connList, sem, freeConnNums, curConnNums, maxConnNums := [], 0, 0, 0, 0;
    }

    /** The object's fields are those of the system's state `s`. */
    ghost predicate Shows(s: State)
      reads this
    {
      && connList == s.connList && sem == s.dbSem
      && freeConnNums == s.free && curConnNums == s.inUse && maxConnNums == s.maxConn
    }

    /** Nobody is inside a method: the counters and the semaphore agree with the list. */
    ghost predicate AtRest()
      reads this
    {
      sem == |connList| == freeConnNums && freeConnNums + curConnNums == maxConnNums
    }

    /** `init`; `links` are the results of connecting, and the program exits at the first failure. */
    method Init(links: seq<Option<nat>>) returns (ok: bool)
      requires connList == [] && freeConnNums == 0 && curConnNums == 0
      modifies this
      ensures ok <==> None !in links
      ensures ok ==> AtRest() && |connList| == |links| && forall i :: 0 <= i < |links| ==> links[i] == Some(connList[i])
      ensures ok ==> forall workers, maxRequests :: Shows(Start(workers, connList, maxRequests))
    {
      for i := 0 to |links|
        invariant |connList| == i == freeConnNums && curConnNums == 0
        invariant forall k :: 0 <= k < i ==> links[k] == Some(connList[k])
      {
        if links[i] == None { return false; }
        connList := connList + [links[i].value];
        freeConnNums := freeConnNums + 1;
      }
      maxConnNums := freeConnNums;
      sem := |connList|;
      return true;
    }

    // ---- the atomic sections of get_conn and release_conn ----

    method SemWait(ghost s: State, ghost i: nat)
      requires Shows(s) && WorkerEnabled(s, i) && s.workers[i].DbWait?
      modifies `sem
      ensures Shows(WorkerMoves(s, i, true, false))
    {
      sem := sem - 1;
    }

    method TakeLocked(ghost s: State, ghost i: nat) returns (conn: nat)
      requires Shows(s) && WorkerEnabled(s, i) && s.workers[i].DbPop?
      modifies `connList, `freeConnNums, `curConnNums
      ensures Shows(WorkerMoves(s, i, true, false))
      ensures NextPc(s, i, true) == Processing(s.workers[i].req, Conn(conn))
      ensures old(connList) == [conn] + connList
    {
      conn := connList[0];
      connList := connList[1..];
      freeConnNums := freeConnNums - 1;
      curConnNums := curConnNums + 1;
    }

    method PutLocked(conn: nat, ghost s: State, ghost i: nat)
      requires Shows(s) && WorkerEnabled(s, i) && s.workers[i].DbPush? && s.workers[i].mysql == conn
      modifies `connList, `freeConnNums, `curConnNums
      ensures Shows(WorkerMoves(s, i, true, false))
      ensures connList == old(connList) + [conn]
    {
      connList := connList + [conn];
      freeConnNums := freeConnNums + 1;
      curConnNums := curConnNums - 1;
    }

    method SemPost(ghost s: State, ghost i: nat)
      requires Shows(s) && WorkerEnabled(s, i) && s.workers[i].DbPost?
      modifies `sem
      ensures Shows(WorkerMoves(s, i, true, false))
    {
      sem := sem + 1;
    }

    // ---- whole calls, when nobody else is inside ----

    /**
     `get_conn`, called by worker `i`: the connection that has been free the longest, or the null pointer. The
     call is one step of the system when it finds no connection and three steps when it finds one.
     */
    method GetConn(ghost s: State, ghost i: nat) returns (conn: Option<nat>, ghost t: State)
      requires AtRest() && Shows(s) && i < |s.workers| && s.workers[i].CheckList?
      modifies this
      ensures AtRest() && maxConnNums == old(maxConnNums)
      ensures if old(connList) == [] then conn == None && connList == []
              else conn == Some(old(connList)[0]) && connList == old(connList)[1..]
      ensures Shows(t) && Reaches(s, Steps(i, true, if conn == None then 1 else 3), t)
      ensures i < |t.workers| && t.workers[i] == Processing(s.workers[i].req, AsHeld(conn))
    {
      NoSteps(s, i);
      t := WorkerMoves(s, i, true, false);
      StepsMore(s, i, true, 0, s);
      if |connList| == 0 { return None, t; }
      SemWait(t, i);
      StepsMore(s, i, true, 1, t);
      t := WorkerMoves(t, i, true, false);
      var first := TakeLocked(t, i);
      StepsMore(s, i, true, 2, t);
      t := WorkerMoves(t, i, true, false);
      conn := Some(first);
    }

    /** `release_conn`, called by worker `i` with the connection it holds; the null pointer is turned away. */
    method ReleaseConn(conn: Option<nat>, ghost s: State, ghost i: nat) returns (ok: bool, ghost t: State)
      requires AtRest() && Shows(s) && i < |s.workers|
      requires s.workers[i].Processing? && s.workers[i].conn == AsHeld(conn)
      modifies this
      ensures AtRest() && maxConnNums == old(maxConnNums)
      ensures ok <==> conn.Some?
      ensures connList == old(connList) + if conn.Some? then [conn.value] else []
      ensures Shows(t) && Reaches(s, Steps(i, true, if ok then 3 else 1), t)
      ensures i < |t.workers| && t.workers[i] == Waiting
    {
      NoSteps(s, i);
      t := WorkerMoves(s, i, true, false);
      StepsMore(s, i, true, 0, s);
      if conn == None { return false, t; }
      PutLocked(conn.value, t, i);
      StepsMore(s, i, true, 1, t);
      t := WorkerMoves(t, i, true, false);
      SemPost(t, i);
      StepsMore(s, i, true, 2, t);
      t := WorkerMoves(t, i, true, false);
      ok := true;
    }

    /** A scope of `ConnectionPoolRAII`: what is taken is given back, and waits at the end of the list. */
    method RaiiScope(ghost s: State, ghost i: nat) returns (used: Option<nat>, ghost u: State)
      requires AtRest() && Shows(s) && i < |s.workers| && s.workers[i].CheckList?
      modifies this
      ensures AtRest() && freeConnNums == old(freeConnNums) && curConnNums == old(curConnNums)
      ensures multiset(connList) == multiset(old(connList))
      ensures old(connList) == [] ==> used == None
      ensures old(connList) != [] ==>
        connList == old(connList)[1..] + [old(connList)[0]] && used == Some(old(connList)[0])
      ensures Shows(u) && Reaches(s, Steps(i, true, if used == None then 2 else 6), u)
      ensures i < |u.workers| && u.workers[i] == Waiting
    {
      hide Reaches, WorkerMoves;
      ghost var t;
      used, t := GetConn(s, i);
      var ok;
      ok, u := ReleaseConn(used, t, i);
      AloneOn(s, i, if used == None then 1 else 3, t, if used == None then 1 else 3, u);
      assert old(connList) != [] ==> old(connList) == [old(connList)[0]] + old(connList)[1..];
    }
  }

  function AsHeld(conn: Option<nat>): Held {
    match conn
    case None => Null
    case Some(c) => Conn(c)
  }

  lemma NoSteps(s: State, i: nat)
    ensures Reaches(s, Steps(i, true, 0), s)
  {
  }

  lemma {:induction false} AloneOn(s: State, i: nat, n: nat, t: State, more: nat, u: State)
    requires Reaches(s, Steps(i, true, n), t) && Reaches(t, Steps(i, true, more), u)
    ensures Reaches(s, Steps(i, true, n + more), u)
    decreases more
  {
    hide WorkerMoves;
    if more > 0 {
      assert Steps(i, true, more)[..more - 1] == Steps(i, true, more - 1);
      var before := After(t, Steps(i, true, more - 1))[0];
      AloneOn(s, i, n, t, more - 1, before);
      StepsMore(s, i, true, n + more - 1, before);
    }
  }

  class ThreadPool {
    const maxRequests: nat
    var reqQueue: seq<nat>
    var sem: nat
    var ioState: map<nat, Io>

    constructor (maxRequests: nat)
      ensures this.maxRequests == maxRequests && reqQueue == [] && sem == 0 && ioState == map[]
    {
      this.maxRequests := maxRequests;
      reqQueue, sem, ioState := [], 0, map[];
    }

    ghost predicate Shows(s: State)
      reads this
    {
      reqQueue == s.queue && sem == s.sem && ioState == s.ioState && maxRequests == s.maxRequests
    }

    /** The locked section of `append`; false when the queue is full. */
    method AppendLocked(req: nat, io: Io, ghost s: State) returns (ok: bool)
      requires Shows(s) && s.main == Append(req, io)
      modifies `reqQueue, `ioState
      ensures Shows(MainMoves(s)) && (ok <==> MainMoves(s).main == Posting(req, io))
      ensures ok <==> |old(reqQueue)| < maxRequests
      ensures if ok then reqQueue == old(reqQueue) + [req] && ioState == old(ioState)[req := io]
              else reqQueue == old(reqQueue) && ioState == old(ioState)
    {
      if |reqQueue| >= maxRequests { return false; }
      ioState := ioState[req := io];
      reqQueue := reqQueue + [req];
      return true;
    }

    method SemPost(ghost s: State)
      requires Shows(s) && s.main.Posting?
      modifies `sem
      ensures Shows(MainMoves(s))
    {
      sem := sem + 1;
    }

    method SemWait(ghost s: State, ghost i: nat)
      requires Shows(s) && WorkerEnabled(s, i) && s.workers[i] == Waiting
      modifies `sem
      ensures Shows(WorkerMoves(s, i, true, false)) && NextPc(s, i, true) == Woken
    {
      sem := sem - 1;
    }

    /** The locked section of `run`; None when the worker was woken for nothing. */
    method TakeLocked(ghost s: State, ghost i: nat) returns (req: Option<nat>)
      requires Shows(s) && WorkerEnabled(s, i) && s.workers[i] == Woken
      modifies `reqQueue
      ensures Shows(WorkerMoves(s, i, true, false))
      ensures NextPc(s, i, true) == if req == None then Waiting else Popped(req.value)
      ensures old(reqQueue) == if req == None then reqQueue else [req.value] + reqQueue
      ensures req == None ==> reqQueue == []
      ensures QueueCounts(s) ==> req.Some?
    {
      ghost var was := QueueCounts(s);
      if was { QueueCountsKept(s, i, true, false); }
      if reqQueue == [] { return None; }
      req := Some(reqQueue[0]);
      reqQueue := reqQueue[1..];
    }
  }
}
