/**
 The timer list over whole runs: additions, raised expiries, deletions and ticks, in any order and with any
 expiry times. It is a stable priority queue: in order of expiry, and equal expiries in the order in which
 they were set.
 */
module TimerRuns {
  import opened TimerQueue

  datatype Op<T> =
    | Add(timer: T, expire: int)
    | Raise(timer: T, expire: int)
    | Del(timer: T)
    | Tick(now: int)

  predicate Live<T(==)>(q: seq<Entry<T>>, t: T) {
    exists i :: 0 <= i < |q| && q[i].timer == t
  }

  /** Where the timer is. */
  function Find<T(==)>(q: seq<Entry<T>>, t: T): (i: nat)
    ensures i <= |q|
    ensures i < |q| ==> q[i].timer == t
    ensures i == |q| <==> !Live(q, t)
  {
    if q == [] || q[0].timer == t then 0
    else
      assert forall k :: 0 <= k < |q[1..]| ==> q[1..][k] == q[k + 1];
      assert forall k :: 0 < k < |q| ==> q[k] == q[1..][k - 1];
      1 + Find(q[1..], t)
  }

  function Timers<T>(q: seq<Entry<T>>): (s: seq<T>)
    ensures |s| == |q| && forall i :: 0 <= i < |q| ==> s[i] == q[i].timer
  {
    seq(|q|, i requires 0 <= i < |q| => q[i].timer)
  }

  function Front<T>(s: seq<T>): seq<T>
    requires s != []
  {
    s[..|s| - 1]
  }

  function Last<T>(s: seq<T>): T
    requires s != []
  {
    s[|s| - 1]
  }

  /** The list after an operation, and the timers fired by it, in order. */
  function Step<T(==)>(q: seq<Entry<T>>, op: Op<T>): (seq<Entry<T>>, seq<T>) {
    match op
    case Add(t, expire) => (Insert(q, Entry(t, expire)), [])
    case Raise(t, expire) =>
      var i := Find(q, t);
      (if i < |q| then Adjust(q[i := Entry(t, expire)], i) else q, [])
    case Del(t) =>
      var i := Find(q, t);
      (if i < |q| then Without(q, i) else q, [])
    case Tick(now) => (q[Position(q, now)..], Timers(q[..Position(q, now)]))
  }

  function Run<T(==)>(ops: seq<Op<T>>): seq<Entry<T>> {
    if ops == [] then [] else Step(Run(Front(ops)), Last(ops)).0
  }

  /** A timer is added while it is not in the list, raised and deleted while it is; a raise never lowers. */
  predicate Enabled<T(==)>(q: seq<Entry<T>>, op: Op<T>) {
    match op
    case Add(t, _) => !Live(q, t)
    case Raise(t, expire) => Live(q, t) && q[Find(q, t)].expire <= expire
    case Del(t) => Live(q, t)
    case Tick(_) => true
  }

  predicate Legal<T(==)>(ops: seq<Op<T>>) {
    ops == [] || (Legal(Front(ops)) && Enabled(Run(Front(ops)), Last(ops)))
  }

  lemma OneMore<T>(ops: seq<Op<T>>, op: Op<T>)
    requires Legal(ops) && Enabled(Run(ops), op)
    ensures Legal(ops + [op]) && Run(ops + [op]) == Step(Run(ops), op).0
  {
    assert Front(ops + [op]) == ops && Last(ops + [op]) == op;
  }

  // ---- order and ties, over every run ----

  predicate Sets<T(==)>(op: Op<T>, t: T) {
    (op.Add? || op.Raise?) && op.timer == t
  }

  /** The index of the last operation that set the expiry of `t`; -1 when there is none. */
  function LastSet<T(==)>(ops: seq<Op<T>>, t: T): (k: int)
    ensures -1 <= k < |ops|
    ensures k >= 0 ==> Sets(ops[k], t)
    ensures forall i :: k < i < |ops| ==> !Sets(ops[i], t)
  {
    if ops == [] then -1
    else if Sets(Last(ops), t) then |ops| - 1
    else LastSet(Front(ops), t)
  }

  /** The entry expires when it was last set to. */
  predicate Current<T(==)>(ops: seq<Op<T>>, e: Entry<T>) {
    var k := LastSet(ops, e.timer);
    k >= 0 && e.expire == ops[k].expire
  }

  /** Earlier expiries come first, and of equal ones those that were set earlier. */
  predicate Before<T(==)>(ops: seq<Op<T>>, a: Entry<T>, b: Entry<T>) {
    a.expire < b.expire || (a.expire == b.expire && LastSet(ops, a.timer) < LastSet(ops, b.timer))
  }

  predicate StablyOrdered<T(==)>(ops: seq<Op<T>>, q: seq<Entry<T>>) {
    && (forall i :: 0 <= i < |q| ==> Current(ops, q[i]))
    && (forall i, j :: 0 <= i < j < |q| ==> Before(ops, q[i], q[j]))
  }

  predicate Distinct<T(==)>(q: seq<Entry<T>>) {
    forall i, j :: 0 <= i < j < |q| ==> q[i].timer != q[j].timer
  }

  lemma OrderedIsSorted<T>(ops: seq<Op<T>>, q: seq<Entry<T>>)
    requires StablyOrdered(ops, q)
    ensures Sorted(q) && Distinct(q)
  {
  }

  /** An operation that sets none of them keeps the order of any part of the list. */
  lemma PartKeepsOrder<T>(ops: seq<Op<T>>, op: Op<T>, q: seq<Entry<T>>, r: seq<Entry<T>>, f: nat -> nat)
    requires StablyOrdered(ops, q)
    requires forall i :: 0 <= i < |r| ==> f(i) < |q| && r[i] == q[f(i)] && !Sets(op, r[i].timer)
    requires forall i, j :: 0 <= i < j < |r| ==> f(i) < f(j)
    ensures StablyOrdered(ops + [op], r)
  {
    assert Front(ops + [op]) == ops;
    forall i | 0 <= i < |r|
      ensures LastSet(ops + [op], r[i].timer) == LastSet(ops, r[i].timer)
    {
    }
  }

  lemma SetIsCurrent<T>(ops: seq<Op<T>>, op: Op<T>)
    requires op.Add? || op.Raise?
    ensures Current(ops + [op], Entry(op.timer, op.expire))
  {
    assert Sets((ops + [op])[|ops|], op.timer);
  }

  /** What an operation sets comes after every other entry that expires no later, and before the rest. */
  lemma SetIsLatest<T>(ops: seq<Op<T>>, op: Op<T>, x: Entry<T>)
    requires (op.Add? || op.Raise?) && x.timer != op.timer
    ensures var e := Entry(op.timer, op.expire);
      && (x.expire <= e.expire ==> Before(ops + [op], x, e))
      && (e.expire < x.expire ==> Before(ops + [op], e, x))
  {
    var all := ops + [op];
    assert Sets(all[|ops|], op.timer) && !Sets(all[|ops|], x.timer);
  }

  /** The entry that an operation sets goes behind those that expire no later. */
  lemma SetGoesBehind<T>(ops: seq<Op<T>>, op: Op<T>, r: seq<Entry<T>>)
    requires (op.Add? || op.Raise?) && StablyOrdered(ops + [op], r)
    requires forall i :: 0 <= i < |r| ==> r[i].timer != op.timer
    ensures StablyOrdered(ops + [op], Insert(r, Entry(op.timer, op.expire)))
  {
    var all, e := ops + [op], Entry(op.timer, op.expire);
    OrderedIsSorted(all, r);
    InsertKeepsOrder(r, e);
    hide Before, Current, Sorted;
    SetIsCurrent(ops, op);
    var p, s := Position(r, e.expire), Insert(r, e);
    forall i | 0 <= i < |r|
      ensures i < p ==> Before(all, r[i], e)
      ensures p <= i ==> Before(all, e, r[i])
    {
      SetIsLatest(ops, op, r[i]);
    }
    assert forall k {:trigger s[k]} :: 0 <= k < |s| ==> s[k] == if k < p then r[k] else if k == p then e else r[k - 1];
  }

  lemma WithoutKeepsOrder<T>(ops: seq<Op<T>>, op: Op<T>, q: seq<Entry<T>>, i: nat)
    requires StablyOrdered(ops, q) && i < |q|
    requires forall j :: 0 <= j < |q| && j != i ==> !Sets(op, q[j].timer)
    ensures StablyOrdered(ops + [op], Without(q, i))
  {
    PartKeepsOrder(ops, op, q, Without(q, i), k => if k < i then k else k + 1);
  }

  lemma RaisedEntry<T>(q: seq<Entry<T>>, i: nat, e: Entry<T>)
    requires i < |q| && Sorted(q) && q[i].expire <= e.expire
    ensures Raised(q[i := e], i) && Without(q[i := e], i) == Without(q, i)
  {
    assert Without(q[i := e], i) == Without(q, i);
  }

  /** A raise takes the entry out and inserts it with its new expiry. */
  lemma RaiseIsReinsertion<T>(q: seq<Entry<T>>, op: Op<T>)
    requires op.Raise? && Enabled(q, op) && Sorted(q)
    ensures Find(q, op.timer) < |q|
    ensures Step(q, op).0 == Insert(Without(q, Find(q, op.timer)), Entry(op.timer, op.expire))
  {
    hide Insert, Adjust, Without, Sorted, Raised;
    var i, e := Find(q, op.timer), Entry(op.timer, op.expire);
    RaisedEntry(q, i, e);
    AdjustIsReinsertion(q[i := e], i);
  }

  lemma OthersRemain<T>(q: seq<Entry<T>>, i: nat)
    requires i < |q| && Distinct(q)
    ensures forall k :: 0 <= k < |Without(q, i)| ==> Without(q, i)[k].timer != q[i].timer
  {
    var rest := Without(q, i);
    assert forall k {:trigger rest[k]} :: 0 <= k < |rest| ==> rest[k] == if k < i then q[k] else q[k + 1];
  }

  lemma RaiseKeepsOrder<T>(ops: seq<Op<T>>, op: Op<T>, q: seq<Entry<T>>)
    requires StablyOrdered(ops, q) && op.Raise? && Enabled(q, op)
    ensures StablyOrdered(ops + [op], Step(q, op).0)
  {
    OrderedIsSorted(ops, q);
    hide StablyOrdered, Sorted, Step, Insert, Without, Live;
    RaiseIsReinsertion(q, op);
    var i := Find(q, op.timer);
    WithoutKeepsOrder(ops, op, q, i);
    OthersRemain(q, i);
    SetGoesBehind(ops, op, Without(q, i));
  }

  /** Every operation keeps the order. */
  lemma StepKeepsOrder<T>(ops: seq<Op<T>>, op: Op<T>, q: seq<Entry<T>>)
    requires StablyOrdered(ops, q) && Enabled(q, op)
    ensures StablyOrdered(ops + [op], Step(q, op).0)
  {
    hide StablyOrdered, Sorted, Insert, Adjust, Without;
    match op
    case Add(_, _) =>
      PartKeepsOrder(ops, op, q, q, i => i);
      SetGoesBehind(ops, op, q);
    case Raise(_, _) =>
      RaiseKeepsOrder(ops, op, q);
    case Del(t) =>
      OrderedIsSorted(ops, q);
      WithoutKeepsOrder(ops, op, q, Find(q, t));
    case Tick(now) =>
      var n := Position(q, now);
      PartKeepsOrder(ops, op, q, q[n..], k => k + n);
  }

  /**
   Over every run the timers are distinct, each expires when it was last set to, earlier expiries come first,
   and equal ones in the order in which they were set.
   */
  lemma {:induction false} StableOverRuns<T>(ops: seq<Op<T>>)
    requires Legal(ops)
    ensures StablyOrdered(ops, Run(ops)) && Sorted(Run(ops)) && Distinct(Run(ops))
    decreases |ops|
  {
    if ops != [] {
      StableOverRuns(Front(ops));
      assert Front(ops) + [Last(ops)] == ops;
      StepKeepsOrder(Front(ops), Last(ops), Run(Front(ops)));
    }
    OrderedIsSorted(ops, Run(ops));
  }

  // ---- what each operation adds and removes ----

  lemma WithoutDrops<T>(q: seq<T>, i: nat)
    requires i < |q|
    ensures multiset(Without(q, i)) == multiset(q) - multiset{q[i]}
  {
    assert q == q[..i] + [q[i]] + q[i + 1..];
  }

  lemma RaiseReplaces<T>(q: seq<Entry<T>>, op: Op<T>)
    requires Sorted(q) && op.Raise? && Enabled(q, op)
    ensures Find(q, op.timer) < |q|
    ensures multiset(Step(q, op).0) ==
            multiset(q) - multiset{q[Find(q, op.timer)]} + multiset{Entry(op.timer, op.expire)}
  {
    hide Insert, Without, Step, Sorted, Live;
    RaiseIsReinsertion(q, op);
    InsertKeepsEntries(Without(q, Find(q, op.timer)), Entry(op.timer, op.expire));
    WithoutDrops(q, Find(q, op.timer));
  }

  /** An addition adds its entry, a raise replaces one entry, a deletion removes one; none of them fires. */
  lemma EntriesMoved<T>(q: seq<Entry<T>>, op: Op<T>)
    requires Sorted(q) && Enabled(q, op) && !op.Tick?
    ensures op.Add? ==> multiset(Step(q, op).0) == multiset(q) + multiset{Entry(op.timer, op.expire)}
    ensures op.Raise? ==>
      && Find(q, op.timer) < |q|
      && multiset(Step(q, op).0) ==
         multiset(q) - multiset{q[Find(q, op.timer)]} + multiset{Entry(op.timer, op.expire)}
    ensures op.Del? ==>
      && Find(q, op.timer) < |q|
      && multiset(Step(q, op).0) == multiset(q) - multiset{q[Find(q, op.timer)]}
    ensures Step(q, op).1 == []
  {
    hide Insert, Adjust, Without, Sorted, Live;
    if op.Add? {
      InsertKeepsEntries(q, Entry(op.timer, op.expire));
    } else if op.Raise? {
      RaiseReplaces(q, op);
    } else {
      WithoutDrops(q, Find(q, op.timer));
    }
  }

  /** A tick splits the list into the entries that are due, whose timers it fires in order, and the others. */
  lemma TickSplits<T>(q: seq<Entry<T>>, now: int)
    requires Sorted(q)
    ensures var (left, fired) := Step(q, Tick(now));
      && q[..|q| - |left|] + left == q && fired == Timers(q[..|q| - |left|])
      && forall i :: 0 <= i < |q| ==> (i < |fired| <==> q[i].expire <= now)
  {
    hide Position;
    DueIsExact(q, now);
  }

  /** The timer at `i` is in the part before `n` or in the part from `n` on, and in no other place. */
  lemma OneSide<T>(q: seq<Entry<T>>, n: nat, i: nat)
    requires n <= |q| && i < |q| && Distinct(q)
    ensures q[i].timer in Timers(q[..n]) <==> i < n
    ensures Live(q[n..], q[i].timer) <==> n <= i
  {
    if i < n {
      assert Timers(q[..n])[i] == q[i].timer;
    } else {
      assert q[n..][i - n] == q[i];
    }
  }

  /**
   A tick at time `now` after any legal run fires exactly the timers last set to expire by then, each once, in
   order of expiry and, among equals, in the order in which they were set; and it leaves none of them.
   */
  lemma TickFiresExactlyTheDue<T>(ops: seq<Op<T>>, now: int)
    requires Legal(ops)
    ensures var q := Run(ops);
      var (left, fired) := Step(q, Tick(now));
      && |fired| + |left| == |q| && fired == Timers(q[..|fired|])
      && (forall i :: 0 <= i < |q| ==>
            var k := LastSet(ops, q[i].timer);
            && k >= 0
            && (q[i].timer in fired <==> ops[k].expire <= now)
            && (Live(left, q[i].timer) <==> now < ops[k].expire))
      && (forall i, j :: 0 <= i < j < |fired| ==>
            Before(ops, q[i], q[j]) && fired[i] == q[i].timer && fired[j] == q[j].timer)
  {
    var q := Run(ops);
    StableOverRuns(ops);
    DueIsExact(q, now);
    hide Run, LastSet, Before, Sorted, Live, Position;
    var n := Position(q, now);
    var (left, fired) := Step(q, Tick(now));
    forall i | 0 <= i < |q|
      ensures var k := LastSet(ops, q[i].timer);
        && k >= 0
        && (q[i].timer in fired <==> ops[k].expire <= now)
        && (Live(left, q[i].timer) <==> now < ops[k].expire)
    {
      OneSide(q, n, i);
    }
  }

  // ---- every timer is accounted for ----

  function Adds<T(==)>(ops: seq<Op<T>>, t: T): nat {
    if ops == [] then 0
    else Adds(Front(ops), t) + if Last(ops).Add? && Last(ops).timer == t then 1 else 0
  }

  function Dels<T(==)>(ops: seq<Op<T>>, t: T): nat {
    if ops == [] then 0
    else Dels(Front(ops), t) + if Last(ops).Del? && Last(ops).timer == t then 1 else 0
  }

  /** How often the timer has fired. */
  function Fires<T(==)>(ops: seq<Op<T>>, t: T): nat {
    if ops == [] then 0
    else Fires(Front(ops), t) + if t in Step(Run(Front(ops)), Last(ops)).1 then 1 else 0
  }

  /** Every time a timer was added it is live, deleted or fired: exactly one of them, exactly once. */
  lemma {:induction false} EachTimerOnce<T>(ops: seq<Op<T>>, t: T)
    requires Legal(ops)
    ensures Adds(ops, t) == Dels(ops, t) + Fires(ops, t) + if Live(Run(ops), t) then 1 else 0
    decreases |ops|
  {
    if ops != [] {
      EachTimerOnce(Front(ops), t);
      StableOverRuns(Front(ops));
      StepMovesOne(Run(Front(ops)), Last(ops), t);
    }
  }

  lemma LiveAfterInsert<T>(q: seq<Entry<T>>, e: Entry<T>, t: T)
    ensures Live(Insert(q, e), t) <==> Live(q, t) || t == e.timer
  {
    var p := Position(q, e.expire);
    var r := Insert(q, e);
    assert r[p] == e;
    if i :| 0 <= i < |q| && q[i].timer == t {
      assert r[if i < p then i else i + 1] == q[i];
    }
    if i :| 0 <= i < |r| && r[i].timer == t {
      assert i != p ==> q[if i < p then i else i - 1] == r[i];
    }
  }

  lemma LiveWithout<T>(q: seq<Entry<T>>, i: nat, t: T)
    requires i < |q| && Distinct(q)
    ensures Live(Without(q, i), t) <==> Live(q, t) && t != q[i].timer
  {
    var r := Without(q, i);
    if j :| 0 <= j < |q| && q[j].timer == t {
      assert j != i ==> r[if j < i then j else j - 1] == q[j];
    }
    if j :| 0 <= j < |r| && r[j].timer == t {
      assert q[if j < i then j else j + 1] == r[j];
    }
  }

  lemma LiveInPart<T>(q: seq<Entry<T>>, n: nat, t: T)
    requires n <= |q| && Distinct(q)
    ensures Live(q, t) <==> Live(q[n..], t) || t in Timers(q[..n])
    ensures !(Live(q[n..], t) && t in Timers(q[..n]))
  {
    if i :| 0 <= i < |q| && q[i].timer == t {
      OneSide(q, n, i);
    } else {
      assert forall k {:trigger q[..n][k]} :: 0 <= k < n ==> q[..n][k] == q[k];
      assert forall k {:trigger q[n..][k]} :: 0 <= k < |q| - n ==> q[n..][k] == q[n + k];
    }
  }

  lemma StepMovesOne<T>(q: seq<Entry<T>>, op: Op<T>, t: T)
    requires Enabled(q, op) && Sorted(q) && Distinct(q)
    ensures var (r, fired) := Step(q, op);
      (if Live(q, t) then 1 else 0) + (if op.Add? && op.timer == t then 1 else 0) ==
      (if Live(r, t) then 1 else 0) + (if op.Del? && op.timer == t then 1 else 0) + (if t in fired then 1 else 0)
  {
    hide Insert, Adjust, Without, Live, Distinct, Sorted;
    match op
    case Add(a, expire) =>
      LiveAfterInsert(q, Entry(a, expire), t);
    case Raise(a, expire) =>
      RaiseIsReinsertion(q, op);
      LiveWithout(q, Find(q, a), t);
      LiveAfterInsert(Without(q, Find(q, a)), Entry(a, expire), t);
    case Del(a) =>
      LiveWithout(q, Find(q, a), t);
    case Tick(now) =>
      LiveInPart(q, Position(q, now), t);
  }
}
