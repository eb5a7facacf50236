/** Counting and collecting over a sequence of threads, one of which moves at a time. */
module Counting {

  /** How many of these flags are set. */
  function Count(flags: seq<bool>): nat {
    if flags == [] then 0 else Count(flags[..|flags| - 1]) + if flags[|flags| - 1] then 1 else 0
  }

  lemma {:induction false} CountUpdate(flags: seq<bool>, i: nat, b: bool)
    requires i < |flags|
    ensures Count(flags[i := b]) == Count(flags) - (if flags[i] then 1 else 0) + (if b then 1 else 0)
    decreases |flags|
  {
    var n := |flags| - 1;
    if i < n {
      CountUpdate(flags[..n], i, b);
      assert flags[i := b][..n] == flags[..n][i := b];
    } else {
      assert flags[i := b][..n] == flags[..n];
    }
  }

  lemma {:induction false} CountNone(flags: seq<bool>)
    requires Count(flags) == 0
    ensures forall i :: 0 <= i < |flags| ==> !flags[i]
    decreases |flags|
  {
    if flags != [] {
      var n := |flags| - 1;
      CountNone(flags[..n]);
      assert forall i :: 0 <= i < n ==> flags[i] == flags[..n][i];
    }
  }

  lemma {:induction false} CountSome(flags: seq<bool>) returns (i: nat)
    requires Count(flags) > 0
    ensures i < |flags| && flags[i]
    decreases |flags|
  {
    i := |flags| - 1;
    if !flags[i] { i := CountSome(flags[..i]); }
  }

  /** Flags that are never set together count no more than the threads. */
  lemma {:induction false} CountApart(a: seq<bool>, b: seq<bool>)
    requires |a| == |b| && forall i :: 0 <= i < |a| ==> !(a[i] && b[i])
    ensures Count(a) + Count(b) <= |a|
    decreases |a|
  {
    if a != [] {
      var n := |a| - 1;
      assert forall i :: 0 <= i < n ==> a[..n][i] == a[i] && b[..n][i] == b[i];
      CountApart(a[..n], b[..n]);
    }
  }

  /** The items these threads hold, together. */
  function Gather(held: seq<multiset<nat>>): multiset<nat> {
    if held == [] then multiset{} else Gather(held[..|held| - 1]) + held[|held| - 1]
  }

  lemma {:induction false} GatherUpdate(held: seq<multiset<nat>>, i: nat, m: multiset<nat>)
    requires i < |held|
    ensures held[i] <= Gather(held)
    ensures Gather(held[i := m]) == Gather(held) - held[i] + m
    decreases |held|
  {
    var n := |held| - 1;
    if i < n {
      GatherUpdate(held[..n], i, m);
      assert held[i := m][..n] == held[..n][i := m];
    } else {
      assert held[i := m][..n] == held[..n];
    }
  }

  /** Two threads that hold the same item hold it twice. */
  lemma {:induction false} GatherTwo(held: seq<multiset<nat>>, i: nat, j: nat)
    requires i < j < |held|
    ensures held[i] + held[j] <= Gather(held)
    decreases |held|
  {
    var n := |held| - 1;
    if j < n {
      GatherTwo(held[..n], i, j);
    } else {
      GatherUpdate(held[..n], i, held[i]);
    }
  }

  /** The sum of these numbers. */
  function Sum(ns: seq<nat>): nat {
    if ns == [] then 0 else Sum(ns[..|ns| - 1]) + ns[|ns| - 1]
  }

  lemma {:induction false} SumUpdate(ns: seq<nat>, i: nat, n: nat)
    requires i < |ns|
    ensures Sum(ns[i := n]) == Sum(ns) - ns[i] + n
    decreases |ns|
  {
    var k := |ns| - 1;
    if i < k {
      SumUpdate(ns[..k], i, n);
      assert ns[i := n][..k] == ns[..k][i := n];
    } else {
      assert ns[i := n][..k] == ns[..k];
    }
  }
}
