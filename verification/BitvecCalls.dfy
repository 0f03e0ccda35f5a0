/** Whether a call of sqlite3BitvecSet returns (bitvec.c), for every size an unsigned 32-bit number
    can give: the calls nest, and fuel bounds how deep.  A node whose iDivisor wrapped around to 0
    can be written down here, unlike in the class Bitvec. */
module BitvecCalls {
  import opened Basics
  import opened Bitvec
  import BitvecHash
  import opened BitvecLayout

  type pos = n: nat | n > 0 witness 1
  type Slots = h: seq<nat> | |h| == NINT witness Zeros()

  function Zeros(): (h: seq<nat>)
    ensures |h| == NINT && forall j :: 0 <= j < NINT ==> h[j] == 0
  {
    seq(NINT, _ => 0)
  }

  /** A Bitvec for the numbers 1..size in one of its three representations.  A bin that is not in
      apSub is a null pointer. */
  datatype Node =
    | Map(size: nat, bits: set<nat>)
    | Table(size: nat, nSet: nat, aHash: Slots)
    | Parent(size: nat, iDivisor: pos, apSub: map<nat, Node>)

  /** sqlite3BitvecCreate. */
  function Create(size: nat): Node {
    if size <= NBIT then Map(size, {}) else Table(size, 0, Zeros())
  }

  /** What the memset of apSub and the new iDivisor make of a hash table: nSet stays as it is. */
  function Emptied(size: nat, nSet: nat): Node {
    if Divisor(size) == 0 then Table(size, nSet, Zeros()) else Parent(size, Divisor(size), map[])
  }

  /** The slot, at most n after slot k, at which probing for v stops; None when it would go on. */
  function Stop(h: Slots, v: pos, k: nat, n: nat): (e: Option<nat>)
    requires k < NINT
    ensures e.Some? ==> e.value < NINT && (h[e.value] == v || h[e.value] == 0)
    decreases n
  {
    if h[k] == v || h[k] == 0 then Some(k)
    else if n == 0 then None
    else Stop(h, v, BitvecHash.Next(k), n - 1)
  }

  function BinOf(d: pos, v: pos): nat {
    (v - 1) / d
  }

  function RestOf(d: pos, v: pos): pos {
    (v - 1) % d + 1
  }

  /** sqlite3BitvecSet: the node it leaves, or None when it does not return within fuel nested
      calls and descents. */
  function Set(p: Node, v: pos, fuel: nat): Option<Node>
    decreases fuel, 0
  {
    if fuel == 0 then None
    else match p
    case Map(size, bits) => Some(Map(size, bits + {v}))
    case Parent(size, d, apSub) =>
      var bin, rest := BinOf(d, v), RestOf(d, v);
      var child := if bin in apSub then apSub[bin] else Create(d);
      (match Set(child, rest, fuel - 1)
       case None => None
       case Some(child') => Some(Parent(size, d, apSub[bin := child'])))
    case Table(size, nSet, h) =>
      (match Stop(h, v, BitvecHash.Home(v), NINT)
       case None => None
       case Some(e) =>
         if h[e] == v then Some(p)
         else if !MustSplit(h[BitvecHash.Home(v)] == 0, nSet) then Some(Table(size, nSet + 1, h[e := v]))
         else match Set(Emptied(size, nSet), v, fuel - 1)
           case None => None
           case Some(p') => SetAll(p', h, fuel - 1))
  }

  /** One call after the other, for the values that are not 0. */
  function SetAll(p: Node, values: seq<nat>, fuel: nat): Option<Node>
    decreases fuel, |values|
  {
    if values == [] then Some(p)
    else if values[0] == 0 then SetAll(p, values[1..], fuel)
    else match Set(p, values[0], fuel)
      case None => None
      case Some(p') => SetAll(p', values[1..], fuel)
  }

  // ----- up to MAX_SIZE every call returns

  function Taken(h: Slots): set<nat> {
    set j: nat | j < NINT && h[j] != 0
  }

  /** The nodes that are met below a size up to MAX_SIZE: a table counts at least the slots that are
      taken and leaves one free. */
  ghost predicate Shaped(p: Node) {
    match p
    case Map(_, _) => true
    case Table(size, nSet, h) => NBIT < size <= MAX_SIZE && |Taken(h)| <= nSet < NINT
    case Parent(size, d, apSub) =>
      && NBIT < size <= MAX_SIZE && d == Divisor(size)
      && forall b :: b in apSub ==> Shaped(apSub[b]) && apSub[b].size == d
  }

  /** How deep calls and descents nest: a split adds the call that fills the new children. */
  ghost function Need(p: Node): nat {
    if p.Map? || p.size > MAX_SIZE then 1
    else if p.Parent? then 2 * Depth(p.size)
    else 2 * Depth(p.size) + 1
  }

  lemma FreeSlot(h: Slots) returns (e: nat)
    requires |Taken(h)| < NINT
    ensures e < NINT && h[e] == 0
  {
    if Indices(NINT) <= Taken(h) {
      BitvecHash.Smaller(Indices(NINT), Taken(h));
    }
    e :| e in Indices(NINT) && e !in Taken(h);
  }

  function Indices(n: nat): (s: set<nat>)
    ensures |s| == n && forall i: nat :: i in s <==> i < n
  {
    if n == 0 then {} else Indices(n - 1) + {n - 1}
  }

  /** With a free slot somewhere probing stops. */
  lemma {:induction false} StopsAtFree(h: Slots, v: pos, k: nat, n: nat, e: nat)
    requires k < NINT && e < NINT && h[e] == 0 && BitvecHash.Dist(k, e) <= n
    ensures Stop(h, v, k, n).Some?
    decreases n
  {
    if h[k] != v && h[k] != 0 {
      StopsAtFree(h, v, BitvecHash.Next(k), n - 1, e);
    }
  }

  lemma Fill(h: Slots, e: nat, v: pos)
    requires e < NINT
    ensures |Taken(h[e := v])| <= |Taken(h)| + 1
  {
    assert Taken(h[e := v]) == Taken(h) + {e};
  }

  lemma CreateShaped(size: nat)
    requires size <= MAX_SIZE
    ensures Shaped(Create(size)) && Create(size).size == size && Need(Create(size)) <= 2 * Depth(size) + 1
  {
    assert Taken(Zeros()) == {};
  }

  lemma EmptiedShaped(size: nat, nSet: nat)
    requires NBIT < size <= MAX_SIZE
    ensures Shaped(Emptied(size, nSet)) && Emptied(size, nSet).Parent? && Emptied(size, nSet).size == size
  {
    DivisorCovers(size);
  }

  /** One call returns within Need, and what it leaves needs no more. */
  lemma {:induction false} Returns(p: Node, v: pos, fuel: nat)
    requires Shaped(p) && fuel >= Need(p)
    ensures var r := Set(p, v, fuel);
      r.Some? && Shaped(r.value) && r.value.size == p.size && Need(r.value) <= Need(p)
    decreases fuel, 0
  {
    match p
    case Map(_, _) =>
    case Parent(_, _, _) => BelowReturns(p, v, fuel);
    case Table(size, nSet, h) =>
      var e := FreeSlot(h);
      StopsAtFree(h, v, BitvecHash.Home(v), NINT, e);
      var stop := Stop(h, v, BitvecHash.Home(v), NINT).value;
      if h[stop] != v {
        if MustSplit(h[BitvecHash.Home(v)] == 0, nSet) {
          SplitReturns(p, v, fuel);
        } else {
          Fill(h, stop, v);
        }
      }
  }

  lemma {:induction false} BelowReturns(p: Node, v: pos, fuel: nat)
    requires p.Parent? && Shaped(p) && fuel >= Need(p)
    ensures var r := Set(p, v, fuel);
      r.Some? && r.value.Parent? && Shaped(r.value) && r.value.size == p.size
    decreases fuel - 1, NINT + 1
  {
    var d, bin, rest := p.iDivisor, BinOf(p.iDivisor, v), RestOf(p.iDivisor, v);
    DivisorCovers(p.size);
    CreateShaped(d);
    var child := if bin in p.apSub then p.apSub[bin] else Create(d);
    assert Depth(p.size) == 1 + Depth(d);
    Returns(child, rest, fuel - 1);
    var child' := Set(child, rest, fuel - 1).value;
    assert Set(p, v, fuel) == Some(Parent(p.size, d, p.apSub[bin := child']));
  }

  lemma {:induction false} SplitReturns(p: Node, v: pos, fuel: nat)
    requires p.Table? && Shaped(p) && fuel >= Need(p)
    ensures var r := Set(Emptied(p.size, p.nSet), v, fuel - 1);
      && r.Some?
      && var q := SetAll(r.value, p.aHash, fuel - 1);
         q.Some? && Shaped(q.value) && q.value.size == p.size && Need(q.value) <= Need(p)
    decreases fuel - 1, NINT + 1
  {
    var q := Emptied(p.size, p.nSet);
    EmptiedShaped(p.size, p.nSet);
    Returns(q, v, fuel - 1);
    AllReturn(Set(q, v, fuel - 1).value, p.aHash, fuel - 1);
  }

  lemma {:induction false} AllReturn(p: Node, values: seq<nat>, fuel: nat)
    requires Shaped(p) && fuel >= Need(p)
    ensures var r := SetAll(p, values, fuel);
      r.Some? && Shaped(r.value) && r.value.size == p.size && Need(r.value) <= Need(p)
    decreases fuel, |values|
  {
    if values != [] {
      if values[0] == 0 {
        AllReturn(p, values[1..], fuel);
      } else {
        Returns(p, values[0], fuel);
        AllReturn(Set(p, values[0], fuel).value, values[1..], fuel);
      }
    }
  }

  // ----- above it they need not

  ghost predicate EverReturns(p: Node, v: pos) {
    exists fuel :: Set(p, v, fuel).Some?
  }

  /** Once the count of a table whose divisor wraps is used up, a call returns exactly for the values
      that are in the table: for any other it splits again and again. */
  lemma UsedUp(size: nat, h: Slots, v: pos)
    requires MAX_SIZE < size < U32 && BitvecHash.Chained(h)
    ensures EverReturns(Table(size, NINT - 1, h), v) <==> v in h
  {
    var p := Table(size, NINT - 1, h);
    if v in h {
      var j :| 0 <= j < NINT && h[j] == v;
      StopsAtValue(h, v, BitvecHash.Home(v), NINT, j);
      assert Set(p, v, 1).Some?;
    } else {
      forall fuel ensures Set(p, v, fuel).None? {
        SplitsForEver(size, h, v, fuel);
      }
    }
  }

  lemma {:induction false} SplitsForEver(size: nat, h: Slots, v: pos, fuel: nat)
    requires MAX_SIZE < size < U32 && v !in h
    ensures Set(Table(size, NINT - 1, h), v, fuel).None?
    decreases fuel
  {
    if fuel > 0 {
      DivisorCovers(size);
      assert Emptied(size, NINT - 1) == Table(size, NINT - 1, Zeros());
      SplitsForEver(size, Zeros(), v, fuel - 1);
      assert Set(Emptied(size, NINT - 1), v, fuel - 1).None?;
    }
  }

  lemma {:induction false} StopsAtValue(h: Slots, v: pos, k: nat, n: nat, j: nat)
    requires k < NINT && j < NINT && h[j] == v && BitvecHash.Dist(k, j) <= n && BitvecHash.Chained(h)
    requires BitvecHash.Home(v) == k || BitvecHash.Between(BitvecHash.Home(v), k, j) || k == j
    ensures Stop(h, v, k, n).Some? && h[Stop(h, v, k, n).value] == v
    decreases n
  {
    if h[k] != v {
      assert BitvecHash.Between(BitvecHash.Home(h[j]), k, j);
      StopsAtValue(h, v, BitvecHash.Next(k), n - 1, j);
    }
  }

  /** The table in which 1..k are stored, each in its home slot. */
  function FirstOnes(k: nat): Slots {
    seq(NINT, i requires 0 <= i => if i < k then i + 1 else 0)
  }

  function UpFrom(k: nat, n: nat): (s: seq<nat>)
    ensures |s| == n && forall i :: 0 <= i < n ==> s[i] == k + i
  {
    seq(n, i => k + i)
  }

  /** Setting 1, 2, 3, ... in a new Bitvec: the first 124 go into the table, the next call does not
      return, however deep calls may nest. */
  lemma FirstFailure(size: nat, fuel: nat)
    requires MAX_SIZE < size < U32 && fuel > 0
    ensures SetAll(Create(size), UpFrom(1, NINT - 1), fuel) == Some(Table(size, NINT - 1, FirstOnes(NINT - 1)))
    ensures SetAll(Create(size), UpFrom(1, NINT), fuel).None?
  {
    assert FirstOnes(0) == Zeros();
    Ascending(size, 0, NINT - 1, fuel);
    Ascending(size, 0, NINT, fuel);
  }

  lemma OneMore(size: nat, k: nat, fuel: nat)
    requires fuel > 0 && k < NINT - 1
    ensures Set(Table(size, k, FirstOnes(k)), k + 1, fuel) == Some(Table(size, k + 1, FirstOnes(k + 1)))
  {
    assert BitvecHash.Home(k + 1) == k && FirstOnes(k)[k] == 0;
    assert Stop(FirstOnes(k), k + 1, k, NINT) == Some(k);
    assert FirstOnes(k)[k := k + 1] == FirstOnes(k + 1);
  }

  /** The values k + 1 .. n, set in the table that holds 1..k. */
  ghost function Ascend(size: nat, k: nat, n: nat, fuel: nat): Option<Node>
    requires k <= n
  {
    SetAll(Table(size, k, FirstOnes(k)), UpFrom(k + 1, n - k), fuel)
  }

  lemma AscendOne(size: nat, k: nat, n: nat, fuel: nat)
    requires fuel > 0 && k < n && k < NINT - 1
    ensures Ascend(size, k, n, fuel) == Ascend(size, k + 1, n, fuel)
  {
    var values := UpFrom(k + 1, n - k);
    assert values[0] == k + 1 && values[1..] == UpFrom(k + 2, n - k - 1);
    OneMore(size, k, fuel);
  }

  lemma {:induction false} Ascending(size: nat, k: nat, n: nat, fuel: nat)
    requires MAX_SIZE < size < U32 && fuel > 0 && k <= n && k < NINT && n <= NINT
    ensures Ascend(size, k, n, fuel) == if n < NINT then Some(Table(size, n, FirstOnes(n))) else None
    decreases n - k
  {
    if k < n {
      if k == NINT - 1 {
        assert UpFrom(k + 1, n - k)[0] == k + 1;
        SplitsForEver(size, FirstOnes(k), k + 1, fuel);
      } else {
        AscendOne(size, k, n, fuel);
        Ascending(size, k + 1, n, fuel);
      }
    }
  }

  /** No series of insertions in a new Bitvec nests deeper than fuel. */
  ghost predicate NestsAtMost(size: nat, fuel: nat) {
    forall values: seq<nat> ::
      (forall v :: v in values ==> 1 <= v <= size) ==> SetAll(Create(size), values, fuel).Some?
  }

  /** sqlite3BitvecSet always returns exactly for the sizes up to MAX_SIZE, and then within seven
      nested calls and descents. */
  lemma ReturnsIffDivisorFits(size: nat)
    requires 0 < size < U32
    ensures (exists fuel :: NestsAtMost(size, fuel)) <==> size <= MAX_SIZE
    ensures size <= MAX_SIZE ==> NestsAtMost(size, 7)
  {
    if size <= MAX_SIZE {
      CreateShaped(size);
      AtMostThreeDivisions(size);
      forall values ensures SetAll(Create(size), values, 7).Some? {
        AllReturn(Create(size), values, 7);
      }
      assert NestsAtMost(size, 7);
    } else {
      var values := UpFrom(1, NINT);
      forall fuel ensures !NestsAtMost(size, fuel) {
        assert forall v :: v in values ==> 1 <= v <= size;
        if fuel == 0 {
          assert values[0] == 1;
        } else {
          FirstFailure(size, fuel);
        }
        assert SetAll(Create(size), values, fuel).None?;
      }
    }
  }
}
