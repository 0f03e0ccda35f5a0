/** Sums of an integer weight over a sequence of threads.

    The protocols of this project run any number of threads, kept as a sequence with
    one program counter each.  "How many threads are in such a place" is the sum of a
    0/1 weight over that sequence, and one step of one thread changes one summand. */
module Counting {

  function Sum<T>(ts: seq<T>, w: T -> int): int {
    if ts == [] then 0 else Sum(ts[..|ts| - 1], w) + w(ts[|ts| - 1])
  }

  /** Moving thread t to v changes the sum by the difference of the two weights. */
  lemma {:induction false} SumUpdate<T>(ts: seq<T>, t: nat, v: T, w: T -> int)
    requires t < |ts|
    ensures Sum(ts[t := v], w) == Sum(ts, w) - w(ts[t]) + w(v)
  {
    var n := |ts| - 1;
    if t == n {
      assert ts[t := v][..n] == ts[..n];
    } else {
      assert ts[t := v][..n] == ts[..n][t := v];
      SumUpdate(ts[..n], t, v, w);
    }
  }

  /** With non-negative weights the sum bounds every pair of distinct summands. */
  lemma {:induction false} SumBoundsPair<T>(ts: seq<T>, t: nat, u: nat, w: T -> int)
    requires forall i :: 0 <= i < |ts| ==> w(ts[i]) >= 0
    requires t < u < |ts|
    ensures Sum(ts, w) >= w(ts[t]) + w(ts[u])
  {
    var n := |ts| - 1;
    assert forall i :: 0 <= i < n ==> ts[..n][i] == ts[i];
    if u < n {
      SumBoundsPair(ts[..n], t, u, w);
    } else {
      SumBoundsOne(ts[..n], t, w);
    }
  }

  lemma {:induction false} SumBoundsOne<T>(ts: seq<T>, t: nat, w: T -> int)
    requires forall i :: 0 <= i < |ts| ==> w(ts[i]) >= 0
    requires t < |ts|
    ensures Sum(ts, w) >= w(ts[t])
  {
    var n := |ts| - 1;
    assert forall i :: 0 <= i < n ==> ts[..n][i] == ts[i];
    if t < n {
      SumBoundsOne(ts[..n], t, w);
    } else {
      SumNonNegative(ts[..n], w);
    }
  }

  lemma {:induction false} SumNonNegative<T>(ts: seq<T>, w: T -> int)
    requires forall i :: 0 <= i < |ts| ==> w(ts[i]) >= 0
    ensures Sum(ts, w) >= 0
  {
    if ts != [] {
      var n := |ts| - 1;
      assert forall i :: 0 <= i < n ==> ts[..n][i] == ts[i];
      SumNonNegative(ts[..n], w);
    }
  }

  /** A positive sum has a thread of positive weight. */
  lemma {:induction false} SumWitness<T>(ts: seq<T>, w: T -> int) returns (t: nat)
    requires Sum(ts, w) > 0
    ensures t < |ts| && w(ts[t]) > 0
  {
    var n := |ts| - 1;
    if w(ts[n]) > 0 {
      t := n;
    } else {
      t := SumWitness(ts[..n], w);
    }
  }

  /** Two weights that are ordered on every thread have ordered sums. */
  lemma {:induction false} SumOrdered<T>(ts: seq<T>, w: T -> int, w': T -> int)
    requires forall i :: 0 <= i < |ts| ==> w(ts[i]) <= w'(ts[i])
    ensures Sum(ts, w) <= Sum(ts, w')
  {
    if ts != [] {
      var n := |ts| - 1;
      assert forall i :: 0 <= i < n ==> ts[..n][i] == ts[i];
      SumOrdered(ts[..n], w, w');
    }
  }

  /** A sum of 0/1 weights is at most the number of threads. */
  lemma {:induction false} SumAtMostLength<T>(ts: seq<T>, w: T -> int)
    requires forall i :: 0 <= i < |ts| ==> w(ts[i]) <= 1
    ensures Sum(ts, w) <= |ts|
  {
    if ts != [] {
      var n := |ts| - 1;
      assert forall i :: 0 <= i < n ==> ts[..n][i] == ts[i];
      SumAtMostLength(ts[..n], w);
    }
  }

  /** A sum of zero weights is zero. */
  lemma {:induction false} SumZero<T>(ts: seq<T>, w: T -> int)
    requires forall i :: 0 <= i < |ts| ==> w(ts[i]) == 0
    ensures Sum(ts, w) == 0
  {
    if ts != [] {
      var n := |ts| - 1;
      assert forall i :: 0 <= i < n ==> ts[..n][i] == ts[i];
      SumZero(ts[..n], w);
    }
  }

  /** A sum of 0/1 weights that reaches the number of threads counts every one of them. */
  lemma {:induction false} SumFull<T>(ts: seq<T>, t: nat, w: T -> int)
    requires forall i :: 0 <= i < |ts| ==> w(ts[i]) <= 1
    requires Sum(ts, w) == |ts| && t < |ts|
    ensures w(ts[t]) == 1
  {
    var n := |ts| - 1;
    assert forall i :: 0 <= i < n ==> ts[..n][i] == ts[i];
    SumAtMostLength(ts[..n], w);
    if t < n {
      SumFull(ts[..n], t, w);
    }
  }

  /** A sum of ones is the number of threads. */
  lemma {:induction false} SumOnes<T>(ts: seq<T>, w: T -> int)
    requires forall i :: 0 <= i < |ts| ==> w(ts[i]) == 1
    ensures Sum(ts, w) == |ts|
  {
    if ts != [] {
      var n := |ts| - 1;
      assert forall i :: 0 <= i < n ==> ts[..n][i] == ts[i];
      SumOnes(ts[..n], w);
    }
  }
}
