/** Sequences whose elements satisfy one predicate each and another one with their successor. */
module Chain {

  /** own(i, x, last) holds of every element, pair(i, x, y) of every two neighbours. */
  ghost predicate Linked<T(!new)>(ns: seq<T>, own: (int, T, bool) -> bool, pair: (int, T, T) -> bool) {
    && (forall i :: 0 <= i < |ns| ==> own(i, ns[i], i == |ns| - 1))
    && (forall i :: 0 <= i < |ns| - 1 ==> pair(i, ns[i], ns[i + 1]))
  }

  /** Replacing one element concerns it and its two neighbours. */
  lemma ReplaceOne<T(!new)>(
      ns: seq<T>, i: nat, x: T, own: (int, T, bool) -> bool, pair: (int, T, T) -> bool)
    requires Linked(ns, own, pair) && i < |ns|
    requires own(i, x, i == |ns| - 1)
    requires i > 0 ==> pair(i - 1, ns[i - 1], x)
    requires i + 1 < |ns| ==> pair(i, x, ns[i + 1])
    ensures Linked(ns[i := x], own, pair)
  {
  }

  /** Replacing two neighbours concerns them and theirs. */
  lemma ReplaceTwo<T(!new)>(
      ns: seq<T>, i: nat, x: T, y: T, own: (int, T, bool) -> bool, pair: (int, T, T) -> bool)
    requires Linked(ns, own, pair) && i + 1 < |ns|
    requires own(i, x, false) && own(i + 1, y, i + 1 == |ns| - 1)
    requires i > 0 ==> pair(i - 1, ns[i - 1], x)
    requires pair(i, x, y)
    requires i + 2 < |ns| ==> pair(i + 1, y, ns[i + 2])
    ensures Linked(ns[i := x][i + 1 := y], own, pair)
  {
    var ms := ns[i := x][i + 1 := y];
    forall j | 0 <= j < |ms| ensures own(j, ms[j], j == |ms| - 1) {
    }
    forall j | 0 <= j < |ms| - 1 ensures pair(j, ms[j], ms[j + 1]) {
      if j != i - 1 && j != i && j != i + 1 {
        assert pair(j, ns[j], ns[j + 1]);
      }
    }
  }

  lemma Append<T(!new)>(ns: seq<T>, x: T, own: (int, T, bool) -> bool, pair: (int, T, T) -> bool)
    requires Linked(ns, own, pair)
    requires own(|ns|, x, true)
    requires |ns| > 0 ==> own(|ns| - 1, ns[|ns| - 1], false) && pair(|ns| - 1, ns[|ns| - 1], x)
    ensures Linked(ns + [x], own, pair)
  {
    var ms := ns + [x];
    forall j | 0 <= j < |ms| ensures own(j, ms[j], j == |ms| - 1) {
      if j < |ns| - 1 {
        assert own(j, ns[j], false);
      }
    }
    forall j | 0 <= j < |ms| - 1 ensures pair(j, ms[j], ms[j + 1]) {
      if j < |ns| - 1 {
        assert pair(j, ns[j], ns[j + 1]);
      }
    }
  }

  lemma At<T(!new)>(ns: seq<T>, i: nat, own: (int, T, bool) -> bool, pair: (int, T, T) -> bool)
    requires Linked(ns, own, pair) && i < |ns|
    ensures own(i, ns[i], i == |ns| - 1)
    ensures i > 0 ==> pair(i - 1, ns[i - 1], ns[i])
    ensures i + 1 < |ns| ==> pair(i, ns[i], ns[i + 1])
  {
  }
}
