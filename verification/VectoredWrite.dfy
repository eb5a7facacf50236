/**
 `write`: sending the two vectors through `writev`, which may take fewer bytes than asked, be
 interrupted, or have no room. The vectors are updated from cumulative counts against lengths that have
 already been changed, so the update is right for the first short write of a response and for no other.
 */
module VectoredWrite {
  import opened Response
  import opened Routing

  datatype Errno = Again | Interrupted | OtherError

  /** One answer of the kernel: how many bytes it has room for, and the `errno` to be read if it takes none. */
  datatype KernelReply = KernelReply(room: nat, errno: Errno)

  /**
   Nothing: there was nothing to send. Blocked: `write` returns to wait for EPOLLOUT.
   AssertFails: `assert(_iov_count == 2)` stops the program.
   */
  datatype End = Nothing | Finished | Blocked | Failed | AssertFails

  predicate Unfinished(end: End) {
    end == Blocked || end == Failed
  }

  /** How the vectors are updated after a short write. */
  datatype Update = AsWritten | Repaired

  /** `sent` is what went out, byte by byte; `shorts` counts the short writes. */
  datatype Progress = Progress(end: End, o: Out, sent: seq<Place>, shorts: nat)

  predicate AssertHolds(update: Update, o: Out) {
    update == AsWritten && o.have >= o.iov0.len ==> o.iovCount == 2
  }

  /** The update of the vectors; `have` and `notSend` already count the bytes just taken. */
  function AfterShort(update: Update, o: Out): Out
    requires o.notSend > 0
  {
    match update
    case AsWritten =>
      if o.have >= o.iov0.len then
        o.(iov0 := o.iov0.(len := 0), iov1 := Iov(FileMap, o.have - o.iov0.len, o.notSend))
      else
        o.(iov0 := o.iov0.(base := o.iov0.base + o.have, len := o.iov0.len - o.have))
    case Repaired =>
      // offsets are taken from `_write_idx`, which does not change while the response is sent
      if o.have >= |o.text| then
        o.(iov0 := o.iov0.(len := 0), iov1 := Iov(FileMap, o.have - |o.text|, o.notSend))
      else
        o.(iov0 := Iov(OutBuffer, o.have, |o.text| - o.have))
  }

  /** One call of `write` whose `writev` calls meet these replies; when they run out there is no room. */
  function Send(update: Update, o: Out, script: seq<KernelReply>): Progress
    decreases |script|
  {
    if script == [] then Progress(Blocked, o, [], 0)
    else
      var pending := Pending(o);
      var ret := if script[0].room < |pending| then script[0].room else |pending|;
      if ret > 0 then
        var o1 := o.(have := o.have + ret, notSend := o.notSend - ret);
        if o1.notSend <= 0 then Progress(Finished, o1, pending[..ret], 0)
        else if !AssertHolds(update, o1) then Progress(AssertFails, o1, pending[..ret], 1)
        else
          var p := Send(update, AfterShort(update, o1), script[1..]);
          p.(sent := pending[..ret] + p.sent, shorts := 1 + p.shorts)
      else
        match script[0].errno
        case Again => Progress(Blocked, o, [], 0)
        case Interrupted => Send(update, o, script[1..])
        case OtherError => Progress(Failed, o, [], 0)
  }

  /** One call of `write`. */
  function Write(update: Update, o: Out, script: seq<KernelReply>): Progress {
    if o.notSend == 0 then Progress(Nothing, o, [], 0) else Send(update, o, script)
  }

  /** The calls of `write` for one response, one for each EPOLLOUT, until one does not end blocked. */
  function Calls(update: Update, o: Out, scripts: seq<seq<KernelReply>>): Progress
    decreases |scripts|
  {
    if scripts == [] then Progress(Blocked, o, [], 0)
    else
      var p := Write(update, o, scripts[0]);
      if p.end != Blocked then p
      else
        var q := Calls(update, p.o, scripts[1..]);
        q.(sent := p.sent + q.sent, shorts := p.shorts + q.shorts)
  }

  // ---- what should be sent ----

  /** All bytes of a response: `h` bytes of the buffer, then `f` bytes of the file. */
  function Expected(h: nat, f: nat): (s: seq<Place>)
    ensures |s| == h + f
    ensures forall i :: 0 <= i < h ==> s[i] == Place(OutBuffer, i)
    ensures forall i :: h <= i < h + f ==> s[i] == Place(FileMap, i - h)
  {
    Iov(OutBuffer, 0, h).Places() + Iov(FileMap, 0, f).Places()
  }

  /** The state that `write_process` leaves (see `ResponseIsFramed`). */
  predicate Ready(o: Out, h: nat, f: nat) {
    && 0 < h == |o.text| && o.have == 0 && o.notSend == h + f
    && o.iov0 == Iov(OutBuffer, 0, h)
    && (if o.iovCount == 2 then o.iov1 == Iov(FileMap, 0, f) else f == 0)
  }

  /** The counters are right and the vectors describe exactly the bytes not yet sent. */
  predicate Placed(o: Out, h: nat, f: nat) {
    && 0 < h == |o.text| && 0 <= o.have <= h + f && o.notSend == h + f - o.have
    && (o.iovCount == 2 || f == 0)
    && (if o.have < h then
          o.iov0 == Iov(OutBuffer, o.have, h - o.have) && (o.iovCount == 2 ==> o.iov1 == Iov(FileMap, 0, f))
        else
          o.iov0.len == 0 && (o.iovCount == 2 ==> o.iov1 == Iov(FileMap, o.have - h, f - (o.have - h))))
  }

  /** The vectors skip bytes: the next byte to go out is one that is not due yet. */
  predicate Misplaced(o: Out, h: nat, f: nat) {
    && 0 < h && 0 < o.have < h + f && o.notSend == h + f - o.have
    && (o.iovCount == 2 || f == 0)
    && (if o.iov0.len > 0 then
          o.iov0.region == OutBuffer && o.iov0.base > o.have && o.iov0.base + o.iov0.len == h &&
          (o.iovCount == 2 ==> o.iov1.region == FileMap && o.iov1.len == f)
        else
          o.iovCount == 2 && o.iov1.region == FileMap && o.iov1.base + h > o.have && o.iov1.len == o.notSend)
  }

  /** After `k` short writes of the code as it is. */
  predicate Inv(update: Update, o: Out, k: nat, h: nat, f: nat) {
    if update == AsWritten && k >= 2 then Misplaced(o, h, f)
    else Placed(o, h, f) && (if k == 0 then Ready(o, h, f) else o.have > 0)
  }

  lemma PlacedPending(o: Out, h: nat, f: nat)
    requires Placed(o, h, f)
    ensures Pending(o) == Expected(h, f)[o.have..]
  {
  }

  lemma MisplacedPending(o: Out, h: nat, f: nat)
    requires Misplaced(o, h, f)
    ensures Pending(o) != [] && Pending(o)[0] != Expected(h, f)[o.have]
    ensures |Pending(o)| <= o.notSend
    ensures o.iov0.len > 0 ==> |Pending(o)| < o.notSend
  {
  }

  /** One short write: right after the first, wrong after any later one, always right when repaired. */
  lemma ShortStep(update: Update, o: Out, k: nat, h: nat, f: nat, ret: nat)
    requires Inv(update, o, k, h, f)
    requires 0 < ret <= |Pending(o)| && ret < o.notSend
    ensures var o1 := o.(have := o.have + ret, notSend := o.notSend - ret);
      && (update == Repaired || k == 0 ==> AssertHolds(update, o1))
      && (AssertHolds(update, o1) ==> Inv(update, AfterShort(update, o1), k + 1, h, f))
  {
    hide Expected;
  }

  /** What one call does, started after `k` short writes. */
  lemma {:induction false} SendKeeps(update: Update, o: Out, script: seq<KernelReply>, k: nat, h: nat, f: nat)
    requires Inv(update, o, k, h, f)
    ensures var p := Send(update, o, script);
      && (Unfinished(p.end) ==> Inv(update, p.o, k + p.shorts, h, f))
      && (update == Repaired || k + p.shorts <= 1 ==>
            && p.end != AssertFails
            && o.have <= p.o.have <= h + f
            && p.sent == Expected(h, f)[o.have..p.o.have]
            && (p.end == Finished ==> p.o.have == h + f))
    decreases |script|
  {
    hide Expected, Pending, Inv, AfterShort, AssertHolds, Send;
    Counters(update, o, k, h, f);
    OneReply(update, o, script);
    if script != [] {
      var n := |Pending(o)|;
      var ret := if script[0].room < n then script[0].room else n;
      if ret > 0 {
        var o1 := o.(have := o.have + ret, notSend := o.notSend - ret);
        if o1.notSend > 0 {
          ShortStep(update, o, k, h, f, ret);
          if AssertHolds(update, o1) {
            SendKeeps(update, AfterShort(update, o1), script[1..], k + 1, h, f);
            SameCounters(update, o1);
            Join(Expected(h, f), o.have, o1.have, Send(update, o, script).o.have);
          }
        } else {
          Join(Expected(h, f), o.have, o1.have, o1.have);
        }
      } else if script[0].errno == Interrupted {
        SendKeeps(update, o, script[1..], k, h, f);
      }
    }
  }

  /** The definition of `Send`, one reply at a time. */
  lemma OneReply(update: Update, o: Out, script: seq<KernelReply>)
    ensures var p := Send(update, o, script);
      if script == [] then p == Progress(Blocked, o, [], 0)
      else
        var n := |Pending(o)|;
        var ret := if script[0].room < n then script[0].room else n;
        if ret > 0 then
          var o1 := o.(have := o.have + ret, notSend := o.notSend - ret);
          if o1.notSend <= 0 then p == Progress(Finished, o1, Pending(o)[..ret], 0)
          else if !AssertHolds(update, o1) then p == Progress(AssertFails, o1, Pending(o)[..ret], 1)
          else
            var q := Send(update, AfterShort(update, o1), script[1..]);
            p == Progress(q.end, q.o, Pending(o)[..ret] + q.sent, 1 + q.shorts)
        else if script[0].errno == Interrupted then p == Send(update, o, script[1..])
        else p == Progress(if script[0].errno == Again then Blocked else Failed, o, [], 0)
  {
    hide Pending, AfterShort, AssertHolds;
  }

  lemma Counters(update: Update, o: Out, k: nat, h: nat, f: nat)
    requires Inv(update, o, k, h, f)
    ensures 0 <= o.have <= h + f && o.notSend == h + f - o.have && |Pending(o)| <= o.notSend
    ensures update == Repaired || k <= 1 ==> Pending(o) == Expected(h, f)[o.have..]
  {
    if update == AsWritten && k >= 2 { MisplacedPending(o, h, f); } else { PlacedPending(o, h, f); }
  }

  lemma SameCounters(update: Update, o: Out)
    requires o.notSend > 0
    ensures AfterShort(update, o).have == o.have && AfterShort(update, o).notSend == o.notSend
  {
  }

  lemma Join<T>(s: seq<T>, i: int, j: int, k: int)
    requires 0 <= i <= j <= |s|
    ensures s[i..][..j - i] == s[i..j]
    ensures j <= k <= |s| ==> s[i..j] + s[j..k] == s[i..k]
  {
  }

  lemma {:induction false} CallsKeep(update: Update, o: Out, scripts: seq<seq<KernelReply>>, k: nat, h: nat, f: nat)
    requires Inv(update, o, k, h, f) && o.have < h + f
    ensures var p := Calls(update, o, scripts);
      && (Unfinished(p.end) ==> Inv(update, p.o, k + p.shorts, h, f) && p.o.have < h + f)
      && (update == Repaired || k + p.shorts <= 1 ==>
            && p.end != AssertFails
            && o.have <= p.o.have <= h + f
            && p.sent == Expected(h, f)[o.have..p.o.have]
            && (p.end == Finished ==> p.o.have == h + f))
    decreases |scripts|
  {
    hide Expected, Pending, Placed, Misplaced, Ready, AfterShort, AssertHolds, Send;
    Counters(update, o, k, h, f);
    if scripts != [] {
      SendKeeps(update, o, scripts[0], k, h, f);
      SendLeavesSome(update, o, scripts[0]);
      var p := Write(update, o, scripts[0]);
      if p.end == Blocked {
        CallsKeep(update, p.o, scripts[1..], k + p.shorts, h, f);
        Counters(update, p.o, k + p.shorts, h, f);
        var q := Calls(update, p.o, scripts[1..]);
        if update == Repaired || k + p.shorts + q.shorts <= 1 {
          Join(Expected(h, f), o.have, p.o.have, q.o.have);
        }
      }
    }
  }

  lemma {:induction false} SendLeavesSome(update: Update, o: Out, script: seq<KernelReply>)
    requires o.notSend > 0
    ensures var p := Send(update, o, script);
      && p.end != Nothing
      && (Unfinished(p.end) ==> p.o.notSend > 0)
      && p.o.have + p.o.notSend == o.have + o.notSend
      && (p.end == Finished ==> p.o.notSend <= 0)
    decreases |script|
  {
    hide Send, Pending, AfterShort, AssertHolds;
    OneReply(update, o, script);
    if script != [] {
      var n := |Pending(o)|;
      var ret := if script[0].room < n then script[0].room else n;
      if ret > 0 {
        var o1 := o.(have := o.have + ret, notSend := o.notSend - ret);
        if o1.notSend > 0 {
          SameCounters(update, o1);
          SendLeavesSome(update, AfterShort(update, o1), script[1..]);
        }
      } else if script[0].errno == Interrupted {
        SendLeavesSome(update, o, script[1..]);
      }
    }
  }

  // ---- exactly which bytes are right ----

  /** These bytes are the ones due from position `at` on. */
  predicate Right(sent: seq<Place>, at: int, h: nat, f: nat) {
    0 <= at <= at + |sent| <= h + f && sent == Expected(h, f)[at..at + |sent|]
  }

  /** The number of short writes up to which everything sent is right: the vectors fail after the second one. */
  function Bearable(end: End): nat {
    if end == Finished then 1 else 2
  }

  lemma RightParts(a: seq<Place>, b: seq<Place>, at: int, h: nat, f: nat)
    requires 0 <= at <= at + |a| + |b| <= h + f
    ensures Right(a + b, at, h, f) <==> Right(a, at, h, f) && Right(b, at + |a|, h, f)
  {
    hide Expected;
    var e := Expected(h, f)[at..at + |a + b|];
    assert e[..|a|] == Expected(h, f)[at..at + |a|] && e[|a|..] == Expected(h, f)[at + |a|..at + |a| + |b|];
    assert (a + b)[..|a|] == a && (a + b)[|a|..] == b;
  }

  /** What one `writev` takes is right exactly before the second short write. */
  lemma TakenIsRight(o: Out, k: nat, h: nat, f: nat, ret: nat)
    requires Inv(AsWritten, o, k, h, f) && 0 < ret <= |Pending(o)|
    ensures o.have + ret <= h + f
    ensures Right(Pending(o)[..ret], o.have, h, f) <==> k <= 1
  {
    hide Pending, Expected;
    Counters(AsWritten, o, k, h, f);
    if k >= 2 {
      MisplacedPending(o, h, f);
      assert Pending(o)[..ret][0] == Pending(o)[0];
      assert Expected(h, f)[o.have..o.have + ret][0] == Expected(h, f)[o.have];
    } else {
      Join(Expected(h, f), o.have, o.have + ret, o.have + ret);
    }
  }

  /** The bytes of one call, started after `k` short writes, and when they are right. */
  lemma {:induction false} SendIsRight(o: Out, script: seq<KernelReply>, k: nat, h: nat, f: nat)
    requires Inv(AsWritten, o, k, h, f)
    ensures var p := Send(AsWritten, o, script);
      && p.o.have == o.have + |p.sent| <= h + f
      && (p.sent == [] ==> p.shorts == 0 && p.end != Finished)
      && (Right(p.sent, o.have, h, f) <==> p.sent == [] || k + p.shorts <= Bearable(p.end))
    decreases |script|
  {
    hide Expected, Pending, Inv, AfterShort, AssertHolds, Send, Right;
    Counters(AsWritten, o, k, h, f);
    OneReply(AsWritten, o, script);
    NothingIsRight(o.have, h, f);
    if script != [] {
      var n := |Pending(o)|;
      var ret := if script[0].room < n then script[0].room else n;
      if ret > 0 {
        var o1 := o.(have := o.have + ret, notSend := o.notSend - ret);
        TakenIsRight(o, k, h, f, ret);
        if o1.notSend > 0 {
          ShortStep(AsWritten, o, k, h, f, ret);
          if AssertHolds(AsWritten, o1) {
            SameCounters(AsWritten, o1);
            SendIsRight(AfterShort(AsWritten, o1), script[1..], k + 1, h, f);
            RightParts(Pending(o)[..ret], Send(AsWritten, AfterShort(AsWritten, o1), script[1..]).sent, o.have, h, f);
            NothingIsRight(o1.have, h, f);
          }
        }
      } else if script[0].errno == Interrupted {
        SendIsRight(o, script[1..], k, h, f);
      }
    }
  }

  lemma NothingIsRight(at: int, h: nat, f: nat)
    ensures 0 <= at <= h + f ==> Right([], at, h, f)
  {
  }

  lemma {:induction false} CallsAreRight(o: Out, scripts: seq<seq<KernelReply>>, k: nat, h: nat, f: nat)
    requires Inv(AsWritten, o, k, h, f) && o.have < h + f
    ensures var p := Calls(AsWritten, o, scripts);
      && p.o.have == o.have + |p.sent| <= h + f
      && (p.sent == [] ==> p.shorts == 0 && p.end != Finished)
      && (Right(p.sent, o.have, h, f) <==> p.sent == [] || k + p.shorts <= Bearable(p.end))
    decreases |scripts|
  {
    hide Expected, Pending, Inv, AfterShort, AssertHolds, Send, Right;
    Counters(AsWritten, o, k, h, f);
    NothingIsRight(o.have, h, f);
    if scripts != [] {
      SendIsRight(o, scripts[0], k, h, f);
      SendKeeps(AsWritten, o, scripts[0], k, h, f);
      SendLeavesSome(AsWritten, o, scripts[0]);
      var p := Write(AsWritten, o, scripts[0]);
      if p.end == Blocked {
        Counters(AsWritten, p.o, k + p.shorts, h, f);
        CallsAreRight(p.o, scripts[1..], k + p.shorts, h, f);
        RightParts(p.sent, Calls(AsWritten, p.o, scripts[1..]).sent, o.have, h, f);
        NothingIsRight(p.o.have, h, f);
      }
    }
  }

  /**
   The code as it is, over any run of calls, short writes, EAGAIN and EINTR. A finished response went out in
   order, each byte once, if and only if there was at most one short write; what went out of an unfinished one
   is right if and only if there were at most two, and the bytes its vectors still describe are those that are
   due if and only if there was at most one. Finished means that as many bytes went out as the response has.
   */
  lemma AtMostOneShortWrite(o: Out, scripts: seq<seq<KernelReply>>, h: nat, f: nat)
    requires Ready(o, h, f)
    ensures var p := Calls(AsWritten, o, scripts);
      && p.o.have == |p.sent| <= h + f
      && (p.end == Finished ==> |p.sent| == h + f && (p.sent == Expected(h, f) <==> p.shorts <= 1))
      && (p.end != Finished ==> (p.sent == Expected(h, f)[..|p.sent|] <==> p.shorts <= 2))
      && (Unfinished(p.end) ==>
            |p.sent| < h + f && (p.shorts <= 1 <==> Pending(p.o) == Expected(h, f)[|p.sent|..]))
      && (p.shorts <= 1 ==> p.end == Finished || Unfinished(p.end))
  {
    hide Calls, Expected;
    CallsKeep(AsWritten, o, scripts, 0, h, f);
    CallsNotIdle(AsWritten, o, scripts);
    CallsAreRight(o, scripts, 0, h, f);
    var p := Calls(AsWritten, o, scripts);
    FinishedIsAll(AsWritten, o, scripts);
    assert Expected(h, f)[0..|p.sent|] == Expected(h, f)[..|p.sent|];
    if p.end == Finished { assert Expected(h, f)[..h + f] == Expected(h, f); }
    if Unfinished(p.end) {
      Counters(AsWritten, p.o, p.shorts, h, f);
      if p.shorts >= 2 { MisplacedPending(p.o, h, f); }
    }
  }

  lemma {:induction false} FinishedIsAll(update: Update, o: Out, scripts: seq<seq<KernelReply>>)
    requires o.notSend > 0
    ensures var p := Calls(update, o, scripts);
      && p.o.have + p.o.notSend == o.have + o.notSend
      && (p.end == Finished ==> p.o.notSend <= 0)
    decreases |scripts|
  {
    hide Send;
    if scripts != [] {
      SendLeavesSome(update, o, scripts[0]);
      var p := Write(update, o, scripts[0]);
      if p.end == Blocked { FinishedIsAll(update, p.o, scripts[1..]); }
    }
  }

  lemma {:induction false} SendNotIdle(update: Update, o: Out, script: seq<KernelReply>)
    ensures Send(update, o, script).end != Nothing
    decreases |script|
  {
    hide Send, Pending, AfterShort, AssertHolds;
    OneReply(update, o, script);
    if script != [] {
      var n := |Pending(o)|;
      var ret := if script[0].room < n then script[0].room else n;
      if ret > 0 {
        var o1 := o.(have := o.have + ret, notSend := o.notSend - ret);
        if o1.notSend > 0 { SendNotIdle(update, AfterShort(update, o1), script[1..]); }
      } else {
        SendNotIdle(update, o, script[1..]);
      }
    }
  }

  lemma {:induction false} CallsNotIdle(update: Update, o: Out, scripts: seq<seq<KernelReply>>)
    requires o.notSend > 0
    ensures Calls(update, o, scripts).end != Nothing
    decreases |scripts|
  {
    hide Send;
    if scripts != [] {
      SendLeavesSome(update, o, scripts[0]);
      var p := Write(update, o, scripts[0]);
      if p.end == Blocked { CallsNotIdle(update, p.o, scripts[1..]); }
    }
  }

  /** With offsets taken from `_write_idx`, any number of short writes leaves the order right. */
  lemma AnyNumberOfShortWrites(o: Out, scripts: seq<seq<KernelReply>>, h: nat, f: nat)
    requires Ready(o, h, f)
    ensures var p := Calls(Repaired, o, scripts);
      && p.end != AssertFails && 0 <= p.o.have <= h + f
      && p.sent == Expected(h, f)[..p.o.have]
      && (p.end == Finished <==> p.o.have == h + f)
      && (Unfinished(p.end) ==> Pending(p.o) == Expected(h, f)[p.o.have..])
  {
    hide Calls, Expected;
    CallsKeep(Repaired, o, scripts, 0, h, f);
    CallsNotIdle(Repaired, o, scripts);
    var p := Calls(Repaired, o, scripts);
    if Unfinished(p.end) {
      Counters(Repaired, p.o, p.shorts, h, f);
    }
  }

  /** A second short write and then room for one more byte: the byte sent is not the one that was due. */
  lemma SecondShortWriteSkips(o: Out, scripts: seq<seq<KernelReply>>, h: nat, f: nat, next: KernelReply)
    requires Ready(o, h, f)
    requires Calls(AsWritten, o, scripts).end == Blocked && Calls(AsWritten, o, scripts).shorts >= 2
    requires next.room > 0
    ensures var p := Calls(AsWritten, o, scripts);
      var q := Write(AsWritten, p.o, [next]);
      0 <= p.o.have < h + f && q.sent != [] && q.sent[0] != Expected(h, f)[p.o.have]
  {
    hide Calls, Expected, AfterShort, AssertHolds, Pending;
    CallsKeep(AsWritten, o, scripts, 0, h, f);
    var p := Calls(AsWritten, o, scripts);
    MisplacedPending(p.o, h, f);
    assert Send(AsWritten, p.o, [next]).sent != [] by {
      assert [next][0] == next;
    }
    var n := |Pending(p.o)|;
    var ret := if next.room < n then next.room else n;
    assert Pending(p.o)[..ret][0] == Pending(p.o)[0];
  }

  // ---- the kernel's replies decide ----

  /** What the replies come to for a sender that always offers every byte still due. */
  datatype Intake = Intake(end: End, left: nat, shorts: nat)

  function Takes(left: nat, script: seq<KernelReply>): Intake
    decreases |script|
  {
    if script == [] then Intake(Blocked, left, 0)
    else if left > 0 && script[0].room >= left then Intake(Finished, 0, 0)
    else if left > 0 && script[0].room > 0 then
      var t := Takes(left - script[0].room, script[1..]);
      t.(shorts := 1 + t.shorts)
    else
      match script[0].errno
      case Again => Intake(Blocked, left, 0)
      case Interrupted => Takes(left, script[1..])
      case OtherError => Intake(Failed, left, 0)
  }

  function TakesAll(left: nat, scripts: seq<seq<KernelReply>>): Intake
    decreases |scripts|
  {
    if scripts == [] then Intake(Blocked, left, 0)
    else
      var t := Takes(left, scripts[0]);
      if t.end != Blocked then t
      else
        var u := TakesAll(t.left, scripts[1..]);
        u.(shorts := t.shorts + u.shorts)
  }

  /** The run is the one that the replies alone determine. */
  predicate Agrees(p: Progress, t: Intake) {
    p.end == t.end && p.shorts == t.shorts && p.o.notSend == t.left
  }

  /** Up to the second short write, and always when repaired, a call goes as its replies say. */
  lemma {:induction false} SendFollows(update: Update, o: Out, script: seq<KernelReply>, k: nat, h: nat, f: nat)
    requires Inv(update, o, k, h, f) && o.have < h + f
    ensures o.notSend > 0
    ensures var p, t := Send(update, o, script), Takes(o.notSend, script);
      update == Repaired || k + p.shorts <= 1 || k + t.shorts <= 1 ==> Agrees(p, t)
    decreases |script|
  {
    hide Expected, Pending, Inv, AfterShort, AssertHolds, Send;
    Counters(update, o, k, h, f);
    OneReply(update, o, script);
    if script != [] && (update == Repaired || k <= 1) {
      var n := |Pending(o)|;
      assert n == o.notSend;
      var ret := if script[0].room < n then script[0].room else n;
      if ret > 0 {
        var o1 := o.(have := o.have + ret, notSend := o.notSend - ret);
        if o1.notSend > 0 {
          ShortStep(update, o, k, h, f, ret);
          if AssertHolds(update, o1) {
            SameCounters(update, o1);
            SendFollows(update, AfterShort(update, o1), script[1..], k + 1, h, f);
          }
        }
      } else if script[0].errno == Interrupted {
        SendFollows(update, o, script[1..], k, h, f);
      }
    }
  }

  lemma {:induction false} CallsFollow(update: Update, o: Out, scripts: seq<seq<KernelReply>>, k: nat, h: nat, f: nat)
    requires Inv(update, o, k, h, f) && o.have < h + f
    ensures o.notSend > 0
    ensures var p, t := Calls(update, o, scripts), TakesAll(o.notSend, scripts);
      update == Repaired || k + p.shorts <= 1 || k + t.shorts <= 1 ==> Agrees(p, t)
    decreases |scripts|
  {
    hide Expected, Pending, Inv, AfterShort, AssertHolds, Send, Takes;
    Counters(update, o, k, h, f);
    if scripts != [] {
      SendFollows(update, o, scripts[0], k, h, f);
      SendKeeps(update, o, scripts[0], k, h, f);
      SendLeavesSome(update, o, scripts[0]);
      var p := Write(update, o, scripts[0]);
      if p.end == Blocked {
        Counters(update, p.o, k + p.shorts, h, f);
        CallsFollow(update, p.o, scripts[1..], k + p.shorts, h, f);
      }
    }
  }

  /**
   What the kernel's replies must be for the response to go out whole and in order: to a sender that offers all
   that is due, they leave nothing over and make at most one write short. The repaired update needs only the
   first.
   */
  lemma RepliesDecide(o: Out, scripts: seq<seq<KernelReply>>, h: nat, f: nat)
    requires Ready(o, h, f)
    ensures var p, t := Calls(AsWritten, o, scripts), TakesAll(h + f, scripts);
      p.end == Finished && p.sent == Expected(h, f) <==> t.end == Finished && t.shorts <= 1
    ensures var p, t := Calls(Repaired, o, scripts), TakesAll(h + f, scripts);
      p.end == Finished && p.sent == Expected(h, f) <==> t.end == Finished
  {
    hide Calls, Expected, TakesAll;
    AtMostOneShortWrite(o, scripts, h, f);
    CallsFollow(AsWritten, o, scripts, 0, h, f);
    AnyNumberOfShortWrites(o, scripts, h, f);
    CallsFollow(Repaired, o, scripts, 0, h, f);
    if Calls(Repaired, o, scripts).end == Finished { assert Expected(h, f)[..h + f] == Expected(h, f); }
  }

  /** What `write_process` leaves is ready to be sent, when the counter of bytes fits in an `int`. */
  lemma AnsweredIsReady(o: Out, code: HttpCode, size: nat, linger: bool)
    requires o.text == [] && o.have == 0 && Answered(code)
    requires |WriteProcess(o, code, size, linger).1.text| + size < 0x8000_0000
    ensures var r := WriteProcess(o, code, size, linger).1;
      Ready(r, |r.text|, BodyLength(code, size) - |InlineBody(code, size)|)
  {
    hide StatusLine, HeaderText, ContentLengthLine, LingerLine, ErrorPage, EmptyPage, AddHeaders;
    ResponseIsFramed(o, code, size, linger);
  }

  /** A counter that has overflowed: the first bytes that go out finish the response, however many are left. */
  lemma OverflowFinishesEarly(o: Out, reply: KernelReply, rest: seq<KernelReply>)
    requires o.notSend < 0 && Pending(o) != [] && reply.room > 0
    ensures var p := Write(AsWritten, o, [reply] + rest);
      && p.end == Finished
      && p.sent == if reply.room < |Pending(o)| then Pending(o)[..reply.room] else Pending(o)
  {
    hide Pending, AfterShort, AssertHolds;
    assert ([reply] + rest)[0] == reply;
    OneReply(AsWritten, o, [reply] + rest);
    assert Pending(o)[..|Pending(o)|] == Pending(o);
  }

  /** A `writev` that takes one byte of a longer first vector, as the code deals with it. */
  lemma OneByteTaken(o: Out, reply: KernelReply, rest: seq<KernelReply>)
    requires o.iov0.len > o.have + 1 && o.notSend > 1 && reply.room == 1
    ensures var o1 := o.(have := o.have + 1, notSend := o.notSend - 1,
                         iov0 := Iov(o.iov0.region, o.iov0.base + o.have + 1, o.iov0.len - o.have - 1));
      var p := Send(AsWritten, o, [reply] + rest);
      var q := Send(AsWritten, o1, rest);
      p == Progress(q.end, q.o, [Place(o.iov0.region, o.iov0.base)] + q.sent, 1 + q.shorts)
  {
    hide Send, Pending;
    assert ([reply] + rest)[1..] == rest && ([reply] + rest)[0] == reply;
    FirstPending(o);
    OneReply(AsWritten, o, [reply] + rest);
  }

  /**
   For instance the page for a request that was refused, sent with room for one byte, for one byte, and then
   for all: the third byte never goes out, the fourth follows the second, and the assertion stops the program.
   */
  lemma TwoShortWritesExample(o: Out, linger: bool)
    requires o.text == [] && o.have == 0
    ensures var r := WriteProcess(o, BAD_REQUEST, 0, linger).1;
      var h := |r.text|;
      var one, all := KernelReply(1, Again), KernelReply(h, Again);
      var p := Calls(AsWritten, r, [[one, one, all]]);
      && h > 4 && Ready(r, h, 0) && p.end == AssertFails && p.shorts == 3
      && p.sent == Expected(h, 0)[..2] + Expected(h, 0)[3..]
  {
    hide StatusLine, HeaderText, Pending, Expected, AfterShort, AssertHolds, Send, WriteProcess, Ready;
    ResponseIsFramed(o, BAD_REQUEST, 0, linger);
    AnsweredIsReady(o, BAD_REQUEST, 0, linger);
    var r := WriteProcess(o, BAD_REQUEST, 0, linger).1;
    OneVector(o, linger);
    OneOneAll(r, |r.text|);
  }

  lemma OneVector(o: Out, linger: bool)
    requires o.text == [] && o.have == 0
    ensures var r := WriteProcess(o, BAD_REQUEST, 0, linger).1;
      |r.text| > 4 && r.iovCount == 1 && r.iov0 == Iov(OutBuffer, 0, |r.text|) && r.notSend == |r.text|
  {
    hide StatusLine, HeaderText, ContentLengthLine, LingerLine, AddHeaders;
    ResponseIsFramed(o, BAD_REQUEST, 0, linger);
    assert |WriteProcess(o, BAD_REQUEST, 0, linger).1.text| >= |ErrorPage(BAD_REQUEST).form|;
  }

  lemma OneOneAll(r: Out, h: nat)
    requires h > 4 && r.have == 0 && r.notSend == h && r.iovCount == 1 && r.iov0 == Iov(OutBuffer, 0, h)
    ensures var one, all := KernelReply(1, Again), KernelReply(h, Again);
      var p := Calls(AsWritten, r, [[one, one, all]]);
      p.end == AssertFails && p.shorts == 3 && p.sent == Expected(h, 0)[..2] + Expected(h, 0)[3..]
  {
    hide AfterShort, Send;
    var one, all := KernelReply(1, Again), KernelReply(h, Again);
    var o1 := r.(have := 1, notSend := h - 1, iov0 := Iov(OutBuffer, 1, h - 1));
    var o2 := o1.(have := 2, notSend := h - 2, iov0 := Iov(OutBuffer, 3, h - 3));
    OneByteTaken(r, one, [one, all]);
    OneByteTaken(o1, one, [all]);
    assert [one] + [one, all] == [one, one, all] && [one] + [all] == [one, all];
    OneReply(AsWritten, o2, [all]);
    var p := Send(AsWritten, r, [one, one, all]);
    assert p.sent == Expected(h, 0)[..2] + Expected(h, 0)[3..];
    assert Calls(AsWritten, r, [[one, one, all]]) == p;
  }

  lemma FirstPending(o: Out)
    requires o.iov0.len > 0
    ensures |Pending(o)| > 0 && Pending(o)[..1] == [Pending(o)[0]] && Pending(o)[0] == Place(o.iov0.region, o.iov0.base)
  {
  }
}
