/**
 What the sorted timer list means: a queue of timers in order of expiry, equal expiries in the order of
 insertion. The linked list in TimerList.dfy is tied to these functions.
 */
module TimerQueue {

  datatype Entry<T> = Entry(timer: T, expire: int)

  ghost predicate Sorted<T>(q: seq<Entry<T>>) {
    forall i, j :: 0 <= i < j < |q| ==> q[i].expire <= q[j].expire
  }

  /** How many entries at the front are not later than `key`: where a new one goes, or how many are due. */
  function Position<T>(q: seq<Entry<T>>, key: int): (p: nat)
    ensures p <= |q|
    ensures forall i :: 0 <= i < p ==> q[i].expire <= key
    ensures p < |q| ==> key < q[p].expire
  {
    if q == [] || key < q[0].expire then 0 else 1 + Position(q[1..], key)
  }

  function Insert<T>(q: seq<Entry<T>>, e: Entry<T>): seq<Entry<T>> {
    var p := Position(q, e.expire);
    q[..p] + [e] + q[p..]
  }

  function Without<T>(q: seq<T>, i: nat): seq<T>
    requires i < |q|
  {
    q[..i] + q[i + 1..]
  }

  /** `adjust_timer` for the entry at `i`: it stays, or it is taken out and inserted again. */
  function Adjust<T>(q: seq<Entry<T>>, i: nat): seq<Entry<T>>
    requires i < |q|
  {
    if i + 1 == |q| || q[i].expire < q[i + 1].expire then q else Insert(Without(q, i), q[i])
  }

  // ---- the queue is a stable priority queue ----

  /** Before `p` lie exactly the entries that are not later than `key`. */
  ghost predicate Separates<T>(q: seq<Entry<T>>, key: int, p: nat) {
    p <= |q| && forall i :: 0 <= i < |q| ==> (i < p <==> q[i].expire <= key)
  }

  /** There is one such place, and it is where `Insert` puts the entry. */
  lemma {:induction false} PlaceIsUnique<T>(q: seq<Entry<T>>, key: int, p: nat)
    requires Separates(q, key, p)
    ensures p == Position(q, key)
  {
    if p > 0 {
      assert forall i :: 0 <= i < |q[1..]| ==> q[1..][i] == q[i + 1];
      PlaceIsUnique(q[1..], key, p - 1);
    }
  }

  lemma InsertKeepsOrder<T>(q: seq<Entry<T>>, e: Entry<T>)
    requires Sorted(q)
    ensures Sorted(Insert(q, e))
    ensures Separates(q, e.expire, Position(q, e.expire))
  {
  }

  /**
   The new entry goes after every entry not later than it and before every later one, which leaves only one
   place for it; the order is kept and nothing is lost.
   */
  lemma InsertIsStable<T>(q: seq<Entry<T>>, e: Entry<T>)
    requires Sorted(q)
    ensures Sorted(Insert(q, e)) && multiset(Insert(q, e)) == multiset(q) + multiset{e}
    ensures forall p: nat :: Separates(q, e.expire, p) <==> p == Position(q, e.expire)
  {
    hide Insert, Sorted;
    InsertKeepsOrder(q, e);
    InsertKeepsEntries(q, e);
    forall p: nat | Separates(q, e.expire, p)
      ensures p == Position(q, e.expire)
    {
      PlaceIsUnique(q, e.expire, p);
    }
  }

  lemma InsertKeepsEntries<T>(q: seq<Entry<T>>, e: Entry<T>)
    ensures multiset(Insert(q, e)) == multiset(q) + multiset{e}
  {
    var p := Position(q, e.expire);
    assert q == q[..p] + q[p..];
  }

  /** Entry `i` is at least as late as those before it, and without it the queue is sorted. */
  ghost predicate Raised<T>(q: seq<Entry<T>>, i: nat)
    requires i < |q|
  {
    Sorted(Without(q, i)) && forall j :: 0 <= j < i ==> q[j].expire <= q[i].expire
  }

  /** After its expiry was raised, adjusting an entry is taking it out and inserting it. */
  lemma AdjustIsReinsertion<T>(q: seq<Entry<T>>, i: nat)
    requires i < |q| && Raised(q, i)
    ensures Adjust(q, i) == Insert(Without(q, i), q[i])
    ensures Sorted(Adjust(q, i)) && multiset(Adjust(q, i)) == multiset(q)
    ensures Position(Without(q, i), q[i].expire) >= i
  {
    var rest, e := Without(q, i), q[i];
    RaisedPlace(q, i);
    InsertIsStable(rest, e);
    assert q == q[..i] + [e] + q[i + 1..];
    if i + 1 == |q| || e.expire < q[i + 1].expire {
      PlaceIsUnique(rest, e.expire, i);
      assert rest[..i] == q[..i] && rest[i..] == q[i + 1..];
    }
  }

  lemma RaisedPlace<T>(q: seq<Entry<T>>, i: nat)
    requires i < |q| && Raised(q, i)
    ensures Position(Without(q, i), q[i].expire) >= i
    ensures i + 1 == |q| || q[i].expire < q[i + 1].expire ==> Separates(Without(q, i), q[i].expire, i)
  {
    var rest := Without(q, i);
    assert forall j :: 0 <= j < i ==> rest[j] == q[j];
    assert forall j :: i <= j < |rest| ==> rest[j] == q[j + 1];
    assert i < |rest| ==> rest[i] == q[i + 1];
  }

  /** If the other entries are in order, adjusting an entry puts the queue in order exactly when it was raised. */
  lemma AdjustInOrder<T>(q: seq<Entry<T>>, i: nat)
    requires i < |q| && Sorted(Without(q, i))
    ensures Sorted(Adjust(q, i)) <==> Raised(q, i)
  {
    hide Insert;
    var rest := Without(q, i);
    assert forall j {:trigger q[j]} :: 0 <= j < i ==> rest[j] == q[j];
    assert i + 1 < |q| ==> rest[i] == q[i + 1];
    if Raised(q, i) {
      AdjustIsReinsertion(q, i);
    }
  }

  /** For instance: lowered below an earlier entry, the last one stays where it is. */
  lemma LoweredExample<T>(a: T, b: T)
    ensures var before, lowered := [Entry(a, 15), Entry(b, 16)], [Entry(a, 15), Entry(b, 3)];
      && Sorted(before) && lowered == before[1 := Entry(b, 3)]
      && Sorted(Without(lowered, 1)) && Adjust(lowered, 1) == lowered && !Sorted(lowered)
  {
    var lowered := [Entry(a, 15), Entry(b, 3)];
    assert lowered[1].expire < lowered[0].expire;
  }

  /** The entry is neither first nor last, and no other is later: adjusting it makes it the last. */
  ghost predicate BecomesLast<T>(q: seq<Entry<T>>, i: nat) {
    0 < i && i + 1 < |q| && forall k :: 0 <= k < |q| ==> q[k].expire <= q[i].expire
  }

  /** If the other entries are in order, it is enough to look at the last one. */
  lemma BecomesLastIff<T>(q: seq<Entry<T>>, i: nat)
    requires i < |q| && Sorted(Without(q, i))
    ensures BecomesLast(q, i) <==> 0 < i && i + 1 < |q| && q[|q| - 1].expire <= q[i].expire
  {
    var rest := Without(q, i);
    assert forall j {:trigger q[j]} :: 0 <= j < i ==> rest[j] == q[j];
    assert forall j {:trigger q[j]} :: i < j < |q| ==> rest[j - 1] == q[j];
  }

  /** When no other entry is later, an adjusted entry ends up last. */
  lemma AdjustToLatest<T>(q: seq<Entry<T>>, i: nat)
    requires i < |q|
    requires forall j :: 0 <= j < |q| ==> q[j].expire <= q[i].expire
    ensures Adjust(q, i) == Without(q, i) + [q[i]]
  {
    var rest := Without(q, i);
    assert forall j :: 0 <= j < |rest| ==> rest[j] in q;
    if i + 1 == |q| {
      assert q == rest + [q[i]];
    }
  }

  /** In a sorted queue the entries at the front that are due are all that have expired. */
  lemma DueIsExact<T>(q: seq<Entry<T>>, now: int)
    requires Sorted(q)
    ensures forall i :: 0 <= i < |q| ==> (i < Position(q, now) <==> q[i].expire <= now)
    ensures Sorted(q[Position(q, now)..])
  {
  }
}
