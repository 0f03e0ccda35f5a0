/** The open-addressed hash table of bitvec.c: aHash with linear probing. */
module BitvecHash {
  import opened BitvecLayout

  /** The slot where the search for value v >= 1 starts: BITVEC_HASH(v - 1). */
  function Home(v: nat): (h: nat)
    requires v > 0
    ensures h < NINT
  {
    (v - 1) % NINT
  }

  /** The slot after h, around the end. */
  function Next(h: nat): (n: nat)
    requires h < NINT
    ensures n < NINT
  {
    if h + 1 >= NINT then 0 else h + 1
  }

  /** Slot k is met when walking from a up to but not including b, around the end if needed. */
  predicate Between(a: int, k: int, b: int) {
    if a <= b then a <= k < b else k >= a || k < b
  }

  function Dist(a: nat, b: nat): nat
    requires a < NINT && b < NINT
  {
    if a <= b then b - a else b - a + NINT
  }

  function Values(h: seq<nat>): set<nat> {
    set v | v in h && v != 0
  }

  /** Every stored value is reached from its home slot without meeting a free slot. */
  ghost predicate Chained(h: seq<nat>)
    requires |h| == NINT
  {
    forall j, k :: 0 <= j < NINT && 0 <= k < NINT && h[j] != 0 && Between(Home(h[j]), k, j) ==> h[k] != 0
  }

  ghost predicate Distinct(h: seq<nat>) {
    forall j, k :: 0 <= j < |h| && 0 <= k < |h| && h[j] == h[k] != 0 ==> j == k
  }

  /** A table: n values, each stored once and found by probing. */
  ghost predicate Table(h: seq<nat>, n: nat) {
    |h| == NINT && Chained(h) && Distinct(h) && n == |Values(h)|
  }

  lemma EmptyTable(h: seq<nat>)
    requires |h| == NINT && forall j :: 0 <= j < NINT ==> h[j] == 0
    ensures Table(h, 0) && Values(h) == {}
  {
    assert Values(h) == {};
  }

  /** Reaching a free slot from v's home without meeting v means v is not stored. */
  lemma NotStored(h: seq<nat>, v: nat, e: nat)
    requires |h| == NINT && Chained(h) && v > 0 && e < NINT && h[e] == 0
    requires forall k :: 0 <= k < NINT && Between(Home(v), k, e) ==> h[k] != v
    ensures v !in h
  {
    if j :| 0 <= j < NINT && h[j] == v {
      assert Between(Home(h[j]), e, j);
    }
  }

  /** Storing an absent value in the first free slot found keeps the table. */
  lemma Store(h: seq<nat>, n: nat, v: nat, e: nat)
    requires Table(h, n) && v > 0 && e < NINT && h[e] == 0 && v !in h
    requires forall k :: 0 <= k < NINT && Between(Home(v), k, e) ==> h[k] != 0
    ensures Table(h[e := v], n + 1)
    ensures Values(h[e := v]) == Values(h) + {v}
  {
    var g := h[e := v];
    forall w ensures w in Values(g) <==> w in Values(h) + {v} {
      if w in h && w != 0 {
        var j :| 0 <= j < NINT && h[j] == w;
        assert g[j] == w;
      }
      assert g[e] == v;
    }
    assert Values(g) == Values(h) + {v};
  }

  /** A table with fewer values than slots has a free slot. */
  lemma FreeSlot(h: seq<nat>, n: nat) returns (e: nat)
    requires Table(h, n) && n < NINT
    ensures e < NINT && h[e] == 0
  {
    if forall j :: 0 <= j < NINT ==> h[j] != 0 {
      AllDistinct(h);
    }
    e :| e < NINT && h[e] == 0;
  }

  lemma {:induction false} AllDistinct(h: seq<nat>)
    requires Distinct(h) && forall j :: 0 <= j < |h| ==> h[j] != 0
    ensures |Values(h)| == |h|
  {
    if h == [] {
      assert Values(h) == {};
    } else {
      var n := |h| - 1;
      assert h == h[..n] + [h[n]];
      AllDistinct(h[..n]);
      assert h[n] !in h[..n];
      assert Values(h) == Values(h[..n]) + {h[n]};
    }
  }

  /** The lookup loop of sqlite3BitvecTest. */
  method Contains(a: array<nat>, n: nat, v: nat) returns (found: bool)
    requires a.Length == NINT && Table(a[..], n) && n < NINT && v > 0
    ensures found <==> v in Values(a[..])
  {
    ghost var e := FreeSlot(a[..], n);
    var h: nat := Home(v);
    while a[h] != 0
      invariant h < NINT
      invariant forall k :: 0 <= k < NINT && Between(Home(v), k, h) ==> a[..][k] != v
      decreases Dist(h, e)
    {
      if a[h] == v {
        assert v in a[..];
        return true;
      }
      h := Next(h);
    }
    NotStored(a[..], v, h);
    return false;
  }

  /** The probing loop of sqlite3BitvecSet: v's slot, or the free slot where v belongs. */
  method Probe(a: array<nat>, n: nat, v: nat) returns (h: nat)
    requires a.Length == NINT && Table(a[..], n) && n < NINT && v > 0
    ensures h < NINT
    ensures a[h] != 0 <==> v in Values(a[..])
    ensures a[h] == v || (a[h] == 0 && forall k :: 0 <= k < NINT && Between(Home(v), k, h) ==> a[..][k] != 0)
  {
    ghost var e := FreeSlot(a[..], n);
    h := Home(v);
    while a[h] != 0
      invariant h < NINT
      invariant forall k :: 0 <= k < NINT && Between(Home(v), k, h) ==> a[..][k] != v && a[..][k] != 0
      decreases Dist(h, e)
    {
      if a[h] == v {
        assert v in a[..];
        return;
      }
      h := Next(h);
    }
    NotStored(a[..], v, h);
  }

  /** One round of the rebuilding loop: v goes into the first free slot from its home. */
  method Reinsert(a: array<nat>, n: nat, v: nat)
    requires a.Length == NINT && Table(a[..], n) && n < NINT && v > 0 && v !in Values(a[..])
    modifies a
    ensures Table(a[..], n + 1)
    ensures Values(a[..]) == Values(old(a[..])) + {v}
  {
    var h := Probe(a, n, v);
    Store(a[..], n, v, h);
    a[h] := v;
    assert a[..] == old(a[..])[h := v];
  }

  /** The values of the first j slots that the rebuilding keeps. */
  function Kept(was: seq<nat>, j: nat, cleared: nat): set<nat>
    requires j <= |was|
  {
    Values(was[..j]) - {cleared}
  }

  lemma ValuesStep(was: seq<nat>, j: nat)
    requires j < |was|
    ensures Values(was[..j + 1]) == Values(was[..j]) + (if was[j] == 0 then {} else {was[j]})
    ensures was[j] != 0 ==> was[j] in Values(was)
  {
    assert was[..j + 1] == was[..j] + [was[j]];
  }

  lemma KeptStep(was: seq<nat>, n: nat, j: nat, cleared: nat)
    requires Table(was, n) && n < NINT && j < NINT
    ensures was[j] == 0 || was[j] == cleared ==> Kept(was, j + 1, cleared) == Kept(was, j, cleared)
    ensures was[j] != 0 && was[j] != cleared ==>
      was[j] !in Kept(was, j, cleared) && Kept(was, j + 1, cleared) == Kept(was, j, cleared) + {was[j]}
  {
    ValuesStep(was, j);
    assert was[j] != 0 ==> was[j] !in was[..j];
  }

  lemma KeptFew(was: seq<nat>, n: nat, j: nat, cleared: nat)
    requires Table(was, n) && j < NINT
    ensures |Kept(was, j, cleared)| <= n
  {
    Smaller(Kept(was, j, cleared), Values(was));
  }

  /** memcpy of the table into a buffer. */
  method Copy(a: array<nat>) returns (b: array<nat>)
    ensures fresh(b) && b[..] == a[..]
  {
    b := new nat[a.Length](i requires 0 <= i < a.Length reads a => a[i]);
  }

  /** memset of the table. */
  method Wipe(a: array<nat>)
    requires a.Length == NINT
    modifies a
    ensures Table(a[..], 0) && Values(a[..]) == {}
  {
    forall j | 0 <= j < a.Length { a[j] := 0; }
    EmptyTable(a[..]);
  }

  /** The rebuilding loop of sqlite3BitvecClear: every value but the cleared one is stored anew. */
  method Rebuild(a: array<nat>, n: nat, cleared: nat) returns (m: nat)
    requires a.Length == NINT && Table(a[..], n) && n < NINT
    modifies a
    ensures Table(a[..], m) && m <= n
    ensures Values(a[..]) == Values(old(a[..])) - {cleared}
  {
    ghost var was := a[..];
    var aiValues := Copy(a);
    Wipe(a);
    m := 0;
    for j := 0 to NINT
      invariant aiValues[..] == was
      invariant Table(a[..], m)
      invariant Values(a[..]) == Kept(was, j, cleared)
    {
      KeptStep(was, n, j, cleared);
      KeptFew(was, n, j, cleared);
      var v := aiValues[j];
      assert v == was[j];
      if v != 0 && v != cleared {
        Reinsert(a, m, v);
        m := m + 1;
      }
    }
    assert was[..NINT] == was;
    Smaller(Values(a[..]), Values(was));
  }

  lemma Smaller(s: set<nat>, t: set<nat>)
    requires s <= t
    ensures |s| <= |t|
  {
    assert t == s + (t - s);
  }
}
