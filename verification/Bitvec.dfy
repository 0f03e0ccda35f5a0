/** The adaptive set of numbers of SQLite (bitvec.c), in the layout of a 512-byte structure.

    A Bitvec for the numbers 1..iSize is a straight bitmap if iSize <= BITVEC_NBIT, else a hash
    table while iDivisor is 0, else an array of smaller Bitvecs for iDivisor numbers each.  Bits is
    the set it stands for.  The three members of the C union are three arrays here; only the
    representation in use is constrained. */
module Bitvec {
  import opened Basics
  import BitvecHash
  import opened BitvecLayout
  import BitvecMap

  const U32: nat := 0x1_0000_0000

  /** Above this size the unsigned sum in the computation of iDivisor wraps around. */
  const MAX_SIZE: nat := U32 - NPTR

  /** (iSize + BITVEC_NPTR - 1) / BITVEC_NPTR in 32-bit unsigned arithmetic. */
  function Divisor(iSize: nat): nat {
    ((iSize + NPTR - 1) % U32) / NPTR
  }

  /** Whether a value that is not in the hash table makes sqlite3BitvecSet split the node: direct
      tells that its home slot is free. */
  predicate MustSplit(direct: bool, nSet: nat) {
    if direct && nSet < NINT - 1 then false else nSet >= MXHASH
  }

  // ----- the arithmetic of the recursive form

  /** Splitting a node of numbers 1..size gives a positive divisor whose bins cover all of them and
      are strictly smaller, exactly up to MAX_SIZE; above it the divisor is 0. */
  lemma DivisorCovers(size: nat)
    requires NBIT < size < U32
    ensures size <= MAX_SIZE <==> Divisor(size) > 0
    ensures size <= MAX_SIZE ==> Divisor(size) < size && NPTR * Divisor(size) >= size
  {
  }

  /** How many divisions it takes to reach a node that is not split. */
  function Depth(size: nat): nat
    requires size <= MAX_SIZE
  {
    if size <= NBIT then 0 else DivisorCovers(size); 1 + Depth(Divisor(size))
  }

  lemma DepthGrows(size: nat, size': nat)
    requires size <= size' <= MAX_SIZE
    ensures Depth(size) <= Depth(size')
    decreases size'
  {
    if size' > NBIT && size > NBIT {
      DivisorCovers(size');
      DepthGrows(Divisor(size), Divisor(size'));
    }
  }

  lemma AtMostThreeDivisions(size: nat)
    requires size <= MAX_SIZE
    ensures Depth(size) <= 3
  {
    DepthGrows(size, MAX_SIZE);
    DepthOf(274878, 2200);
    DepthOf(34359738, 274878);
    DepthOf(MAX_SIZE, 34359738);
  }

  lemma DepthOf(size: nat, child: nat)
    requires NBIT < size <= MAX_SIZE && child == Divisor(size) && child <= MAX_SIZE
    ensures Depth(size) == 1 + Depth(child)
  {
  }

  /** The child that holds number v, and the number v has there. */
  function Bin(d: nat): nat -> int
    requires d > 0
  {
    v => (v - 1) / d
  }

  function Rest(d: nat): nat -> int
    requires d > 0
  {
    v => (v - 1) % d + 1
  }

  /** Child and number within it are in range, and together determine the number. */
  lemma Split(d: nat, v: nat)
    requires d > 0 && 1 <= v <= NPTR * d
    ensures 0 <= Bin(d)(v) < NPTR && 1 <= Rest(d)(v) <= d
    ensures forall w: nat :: Bin(d)(w) == Bin(d)(v) && Rest(d)(w) == Rest(d)(v) ==> w == v
  {
    var q := (v - 1) / d;
    assert v - 1 == d * q + (v - 1) % d;
    assert d * q >= d * NPTR || q < NPTR;
    forall w: nat | Bin(d)(w) == Bin(d)(v) && Rest(d)(w) == Rest(d)(v) ensures w == v {
      assert w - 1 == d * q + (v - 1) % d;
    }
  }

  /** The two divisions with which every descent starts. */
  method Descend(size: nat, d: nat, v: nat) returns (bin: nat, rest: nat)
    requires NBIT < size <= MAX_SIZE && d == Divisor(size) && 1 <= v <= NPTR * d
    ensures 0 < d < size
    ensures bin == Bin(d)(v) < NPTR && 1 <= rest == Rest(d)(v) <= d
    ensures forall w: nat :: Bin(d)(w) == bin && Rest(d)(w) == rest ==> w == v
  {
    DivisorCovers(size);
    Split(d, v);
    var i := v - 1;
    bin, rest := i / d, i % d + 1;
  }

  /** bits is the union of the children's sets. */
  ghost predicate Union(bits: set<nat>, size: nat, subs: seq<set<nat>>, bin: nat -> int, rest: nat -> int) {
    && (forall v: nat :: v in bits ==> 1 <= v <= size)
    && (forall v: nat :: 1 <= v <= size ==>
          0 <= bin(v) < |subs| && (v in bits <==> rest(v) in subs[bin(v)]))
  }

  lemma UnionOfNothing(size: nat, d: nat, subs: seq<set<nat>>)
    requires NBIT < size <= MAX_SIZE && d == Divisor(size) > 0 && |subs| == NPTR
    requires forall b :: 0 <= b < NPTR ==> subs[b] == {}
    ensures Union({}, size, subs, Bin(d), Rest(d))
  {
    DivisorCovers(size);
    forall v: nat | 1 <= v <= size ensures 0 <= Bin(d)(v) < |subs| && Rest(d)(v) !in subs[Bin(d)(v)] {
      Split(d, v);
    }
  }

  /** The set the union becomes when v's child becomes sub. */
  lemma UnionChange(bits: set<nat>, size: nat, subs: seq<set<nat>>, bin: nat -> int, rest: nat -> int,
                    v: nat, sub: set<nat>) returns (bits': set<nat>)
    requires Union(bits, size, subs, bin, rest) && 0 <= bin(v) < |subs|
    requires forall w: nat :: bin(w) == bin(v) && rest(w) == rest(v) ==> w == v
    requires rest(v) >= 0
    ensures Union(bits', size, subs[bin(v) := sub], bin, rest)
    ensures 1 <= v <= size && sub == subs[bin(v)] + {rest(v)} ==> bits' == bits + {v}
    ensures sub == subs[bin(v)] - {rest(v)} ==> bits' == bits - {v}
    ensures sub <= subs[bin(v)] + {rest(v)} ==> bits' <= bits + {v}
    ensures sub == subs[bin(v)] ==> bits' == bits
  {
    var subs' := subs[bin(v) := sub];
    bits' := set w: nat | 1 <= w <= size && rest(w) in subs'[bin(w)];
  }

  // ----- the structure

  class Bitvec {
    const iSize: nat
    var nSet: nat
    var iDivisor: nat
    const aBitmap: array<bv8>
    const aHash: array<nat>
    const apSub: array<Bitvec?>
    /** The numbers that are set. */
    ghost var Bits: set<nat>
    ghost var Repr: set<object>

    ghost predicate Valid()
      reads this, Repr
      decreases Repr, 2
    {
      && apSub in Repr && Frame()
      && (iSize <= NBIT ==> iDivisor == 0 && BitvecMap.Represents(aBitmap[..], iSize, Bits, BitvecMap.Has))
      && (iSize > NBIT && iDivisor == 0 ==>
           && BitvecHash.Table(aHash[..], nSet) && nSet < NINT && Bits == BitvecHash.Values(aHash[..])
           && forall v :: v in Bits ==> 1 <= v <= iSize)
      && (iDivisor > 0 ==>
           && iSize > NBIT && iDivisor == Divisor(iSize)
           && Children()
           && Union(Bits, iSize, SubBits(), Bin(iDivisor), Rest(iDivisor)))
    }

    ghost predicate Frame()
      reads this`Repr, apSub
    {
      && this in Repr && aBitmap in Repr && aHash in Repr && apSub in Repr
      && aBitmap.Length == NELEM && aHash.Length == NINT && apSub.Length == NPTR
      && iSize <= MAX_SIZE
      && forall b :: 0 <= b < NPTR ==> apSub[b] == null || (apSub[b] in Repr && apSub[b] != this)
    }

    ghost predicate Child(b: int)
      requires Frame() && 0 <= b < NPTR
      reads this`Repr, this`iDivisor, Repr - {this}
      decreases Repr, 0
    {
      apSub[b] != null ==>
        && apSub[b] in apSub[b].Repr && apSub[b].Repr < Repr
        && this !in apSub[b].Repr && aBitmap !in apSub[b].Repr && aHash !in apSub[b].Repr && apSub !in apSub[b].Repr
        && apSub[b].Valid() && apSub[b].iSize == iDivisor
    }

    ghost predicate Apart(b: int, c: int)
      requires Frame() && 0 <= b < NPTR && 0 <= c < NPTR
      reads this`Repr, this`iDivisor, Repr - {this}
    {
      apSub[b] != null && apSub[c] != null ==>
        apSub[b].Repr !! apSub[c].Repr
    }

    /** Children that are not null have Bitvecs of their own below this one. */
    ghost predicate Children()
      requires Frame()
      reads this`Repr, this`iDivisor, Repr - {this}
      decreases Repr, 1
    {
      && (forall b :: 0 <= b < NPTR ==> Child(b))
      && (forall b, c :: 0 <= b < NPTR && 0 <= c < NPTR && b != c ==> Apart(b, c))
    }

    /** The sets of the first n children. */
    ghost function SubBits(n: nat := NPTR): (subs: seq<set<nat>>)
      requires Frame() && n <= NPTR
      reads this`Repr, apSub, Repr - {this}
      ensures |subs| == n
      ensures forall b :: 0 <= b < n ==> subs[b] == if apSub[b] == null then {} else apSub[b].Bits
    {
      if n == 0 then [] else SubBits(n - 1) + [if apSub[n - 1] == null then {} else apSub[n - 1].Bits]
    }

    /** sqlite3BitvecCreate, when the allocation succeeds. */
    constructor (size: nat)
      requires size <= MAX_SIZE
      ensures Valid() && fresh(Repr)
      ensures iSize == size && Bits == {}
    {
      iSize := size;
      nSet, iDivisor := 0, 0;
      aBitmap := new bv8[NELEM](_ => 0);
      aHash := new nat[NINT](_ => 0);
      apSub := new Bitvec?[NPTR](_ => null);
      Bits := {};
      new;
      Repr := {this, aBitmap, aHash, apSub};
      BitvecMap.AllZero(aBitmap[..], if size <= NBIT then size else 0);
      BitvecHash.EmptyTable(aHash[..]);
    }

    /** The child that holds v and the number it has there. */
    method Below(v: nat) returns (child: Bitvec?, rest: nat)
      requires Valid() && iDivisor > 0 && 1 <= v <= iSize
      ensures child == null ==> v !in Bits
      ensures child != null ==> child.Valid() && 1 <= rest <= child.iSize == iDivisor
      ensures child != null ==> (rest in child.Bits <==> v in Bits)
    {
      var bin;
      bin, rest := Descend(iSize, iDivisor, v);
      child := apSub[bin];
      assert Child(bin);
      assert SubBits()[bin] == if child == null then {} else child.Bits;
    }

    /** The end of sqlite3BitvecTest, in a node that is not split. */
    method TestHere(v: nat) returns (found: bool)
      requires Valid() && iDivisor == 0 && 1 <= v <= iSize
      ensures found <==> v in Bits
    {
      if iSize <= NBIT {
        found := BitvecMap.Test(aBitmap, iSize, Bits, v);
      } else {
        found := BitvecHash.Contains(aHash, nSet, v);
      }
    }

    /** sqlite3BitvecTest: membership, for every number, after at most three divisions. */
    method Test(v: nat) returns (found: bool, ghost divisions: nat)
      requires Valid()
      ensures found <==> v in Bits
      ensures divisions <= 3
    {
      divisions := 0;
      OnlyInRange();
      if v > iSize || v == 0 {
        return false, 0;
      }
      AtMostThreeDivisions(iSize);
      var p: Bitvec, w: nat := this, v;
      while p.iDivisor != 0
        invariant p.Valid() && 1 <= w <= p.iSize
        invariant w in p.Bits <==> v in Bits
        invariant divisions + Depth(p.iSize) <= 3
        decreases p.iSize
      {
        DivisorCovers(p.iSize);
        divisions := divisions + 1;
        var child, rest := p.Below(w);
        if child == null {
          return false, divisions;
        }
        p, w := child, rest;
      }
      found := p.TestHere(w);
    }

    lemma OnlyInRange()
      requires Valid()
      ensures forall v :: v in Bits ==> 1 <= v <= iSize
    {
    }

    /** Clearing number v stays inside the arrays of this node. */
    predicate InBounds(v: nat)
      reads this`iDivisor
    {
      (iDivisor > 0 ==> v <= NPTR * iDivisor) && (iSize <= NBIT ==> v <= NBIT)
    }

    lemma RangeInBounds(v: nat)
      requires Valid() && 1 <= v <= iSize
      ensures InBounds(v)
    {
      if iDivisor > 0 {
        DivisorCovers(iSize);
      }
    }

    /** Clears number rest in child bin: the other children are as before. */
    method ClearOne(bin: nat, rest: nat)
      requires Frame() && Children() && bin < NPTR && apSub[bin] != null && 1 <= rest <= iDivisor < iSize
      modifies apSub[bin].Repr
      ensures unchanged(this) && unchanged(apSub)
      ensures Frame() && forall b :: 0 <= b < NPTR && apSub[b] != null ==>
        && Child(b) && apSub[b].Repr == old(apSub[b].Repr)
        && apSub[b].Bits == if b == bin then old(apSub[b].Bits) - {rest} else old(apSub[b].Bits)
      decreases iSize, 0, 0
    {
      assert Child(bin);
      apSub[bin].RangeInBounds(rest);
      apSub[bin].Clear(rest);
      forall b | 0 <= b < NPTR && b != bin && apSub[b] != null
        ensures Child(b) && apSub[b].Bits == old(apSub[b].Bits) && apSub[b].Repr == old(apSub[b].Repr)
      {
        assert old(Child(b)) && old(Apart(b, bin));
      }
      assert Child(bin);
    }

    /** Nothing else below this node changes. */
    method ClearAt(bin: nat, rest: nat)
      requires Frame() && Children() && bin < NPTR && apSub[bin] != null && 1 <= rest <= iDivisor < iSize
      modifies apSub[bin].Repr
      ensures unchanged(this) && unchanged(apSub)
      ensures Frame() && Children() && apSub[bin].Repr == old(apSub[bin].Repr)
      ensures SubBits() == old(SubBits())[bin := old(SubBits())[bin] - {rest}]
      decreases iSize, 0, 1
    {
      ghost var subs := SubBits();
      ClearOne(bin, rest);
      forall b, c | 0 <= b < NPTR && 0 <= c < NPTR && b != c ensures Apart(b, c) {
        assert old(Apart(b, c));
      }
      assert SubBits() == subs[bin := apSub[bin].Bits];
    }

    /** The descent of sqlite3BitvecClear into the child that holds v. */
    method ClearInChild(v: nat)
      requires Valid() && iDivisor > 0 && 1 <= v <= NPTR * iDivisor
      modifies Repr
      ensures Valid() && Repr == old(Repr) && Bits == old(Bits) - {v}
      decreases iSize, 1
    {
      var bin, rest := Descend(iSize, iDivisor, v);
      ghost var subs := SubBits();
      if apSub[bin] == null {
        assert subs[bin] == {};
        return;
      }
      assert Child(bin);
      ClearAt(bin, rest);
      ghost var bits := UnionChange(Bits, iSize, subs, Bin(iDivisor), Rest(iDivisor), v, subs[bin] - {rest});
      Bits := bits;
    }

    /** sqlite3BitvecClear, also for the numbers above iSize that it does not check for. */
    method Clear(v: nat)
      requires Valid() && v >= 1 && InBounds(v)
      modifies Repr
      ensures Valid() && Repr == old(Repr) && Bits == old(Bits) - {v}
      decreases iSize, 2
    {
      if iDivisor != 0 {
        ClearInChild(v);
      } else if iSize <= NBIT {
        BitvecMap.Clear(aBitmap, iSize, Bits, v);
        Bits := Bits - {v};
      } else {
        nSet := BitvecHash.Rebuild(aHash, nSet, v);
        Bits := Bits - {v};
      }
    }

    /** Sets number rest in child bin, which may grow: the other children are as before. */
    method SetOne(bin: nat, rest: nat, scarce: bool) returns (ok: bool)
      requires Frame() && Children() && bin < NPTR && apSub[bin] != null && 1 <= rest <= iDivisor < iSize
      modifies this`Repr, apSub[bin].Repr
      ensures unchanged(apSub) && iDivisor == old(iDivisor) && nSet == old(nSet) && Bits == old(Bits)
      ensures Frame() && old(Repr) <= Repr && fresh(Repr - old(Repr))
      ensures forall b :: 0 <= b < NPTR && apSub[b] != null ==> Child(b)
      ensures forall b :: 0 <= b < NPTR && b != bin && apSub[b] != null ==>
        apSub[b].Repr == old(apSub[b].Repr) && apSub[b].Bits == old(apSub[b].Bits)
      ensures fresh(apSub[bin].Repr - old(apSub[bin].Repr))
      ensures (!scarce ==> ok) && (ok ==> apSub[bin].Bits == old(apSub[bin].Bits) + {rest})
      ensures !ok ==> apSub[bin].Bits <= old(apSub[bin].Bits) + {rest}
      decreases iSize, 0, 0
    {
      assert Child(bin);
      ok := apSub[bin].Set(rest, scarce);
      Repr := Repr + apSub[bin].Repr;
      forall b | 0 <= b < NPTR && b != bin && apSub[b] != null
        ensures Child(b) && apSub[b].Bits == old(apSub[b].Bits) && apSub[b].Repr == old(apSub[b].Repr)
      {
        assert old(Child(b)) && old(Apart(b, bin));
      }
      assert Child(bin);
    }

    /** Nothing else below this node changes. */
    method SetAt(bin: nat, rest: nat, scarce: bool) returns (ok: bool)
      requires Frame() && Children() && bin < NPTR && apSub[bin] != null && 1 <= rest <= iDivisor < iSize
      modifies this`Repr, apSub[bin].Repr
      ensures unchanged(apSub) && iDivisor == old(iDivisor) && nSet == old(nSet) && Bits == old(Bits)
      ensures Frame() && Children() && old(Repr) <= Repr && fresh(Repr - old(Repr))
      ensures SubBits() == old(SubBits())[bin := apSub[bin].Bits]
      ensures (!scarce ==> ok) && (ok ==> apSub[bin].Bits == old(SubBits())[bin] + {rest})
      ensures !ok ==> apSub[bin].Bits <= old(SubBits())[bin] + {rest}
      decreases iSize, 0, 1
    {
      ghost var subs := SubBits();
      assert Child(bin);
      ok := SetOne(bin, rest, scarce);
      forall b, c | 0 <= b < NPTR && 0 <= c < NPTR && b != c ensures Apart(b, c) {
        assert old(Child(b)) && old(Child(c)) && old(Apart(b, c));
      }
      assert SubBits() == subs[bin := apSub[bin].Bits];
    }

    /** Hangs a new child, empty, in an empty bin. */
    method Grow(bin: nat)
      requires Valid() && iDivisor > 0 && bin < NPTR && apSub[bin] == null
      modifies this`Repr, apSub
      ensures Valid() && apSub[bin] != null && fresh(Repr - old(Repr)) && SubBits() == old(SubBits())
      ensures iDivisor == old(iDivisor) && Bits == old(Bits)
    {
      DivisorCovers(iSize);
      ghost var subs := SubBits();
      var c := new Bitvec(iDivisor);
      apSub[bin] := c;
      Repr := Repr + c.Repr;
      forall b | 0 <= b < NPTR && b != bin && apSub[b] != null
        ensures Child(b) && apSub[b].Bits == subs[b] && apSub[b].Repr == old(apSub[b].Repr)
      {
        assert old(Child(b));
      }
      assert Child(bin);
      forall b, d | 0 <= b < NPTR && 0 <= d < NPTR && b != d ensures Apart(b, d) {
        assert old(Apart(b, d));
      }
      assert SubBits() == subs;
    }

    /** The descent of sqlite3BitvecSet into the child that holds v, created when needed. */
    method SetInChild(v: nat, scarce: bool) returns (ok: bool)
      requires Valid() && iDivisor > 0 && 1 <= v <= iSize
      modifies Repr
      ensures Valid() && fresh(Repr - old(Repr)) && iDivisor == old(iDivisor)
      ensures (!scarce ==> ok) && (ok ==> Bits == old(Bits) + {v})
      ensures !ok ==> Bits <= old(Bits) + {v}
      decreases iSize, 1, 1
    {
      var bin, rest := Descend(iSize, iDivisor, v);
      if apSub[bin] == null {
        var noMemory: bool := *;
        if scarce && noMemory {
          return false;
        }
        Grow(bin);
      }
      ok := SetBelow(v, bin, rest, scarce);
    }

    method SetBelow(v: nat, bin: nat, rest: nat, scarce: bool) returns (ok: bool)
      requires Valid() && 0 < iDivisor < iSize && 1 <= v <= iSize
      requires bin == Bin(iDivisor)(v) < NPTR && 1 <= rest == Rest(iDivisor)(v) <= iDivisor
      requires forall w: nat :: Bin(iDivisor)(w) == bin && Rest(iDivisor)(w) == rest ==> w == v
      requires apSub[bin] != null
      modifies Repr
      ensures Valid() && fresh(Repr - old(Repr)) && iDivisor == old(iDivisor)
      ensures (!scarce ==> ok) && (ok ==> Bits == old(Bits) + {v})
      ensures !ok ==> Bits <= old(Bits) + {v}
      decreases iSize, 1, 0
    {
      ghost var subs := SubBits();
      assert Child(bin);
      ok := SetAt(bin, rest, scarce);
      ghost var bits := UnionChange(Bits, iSize, subs, Bin(iDivisor), Rest(iDivisor), v, apSub[bin].Bits);
      Bits := bits;
    }

    /** A full or colliding hash table becomes an array of children, and its values are set anew. */
    method Convert(v: nat, scarce: bool) returns (ok: bool)
      requires Valid() && iSize > NBIT && iDivisor == 0 && 1 <= v <= iSize
      modifies Repr
      ensures Valid() && fresh(Repr - old(Repr))
      ensures (!scarce ==> ok) && (ok ==> Bits == old(Bits) + {v})
      ensures !ok ==> Bits <= old(Bits) + {v}
      decreases iSize, 3
    {
      var noMemory: bool := *;
      if scarce && noMemory {
        return false;
      }
      var aiValues := BitvecHash.Copy(aHash);
      assert Bits == BitvecHash.Values(aiValues[..]) && forall w :: w in Bits ==> 1 <= w <= iSize;
      MakeEmptyParent();
      ok := Refill(aiValues, v, scarce);
    }

    /** v first, then the saved values. */
    method Refill(aiValues: array<nat>, v: nat, scarce: bool) returns (ok: bool)
      requires Valid() && iDivisor > 0 && Bits == {} && 1 <= v <= iSize
      requires aiValues.Length == NINT && aiValues !in Repr
      requires forall w :: w in BitvecHash.Values(aiValues[..]) ==> 1 <= w <= iSize
      modifies Repr
      ensures Valid() && fresh(Repr - old(Repr))
      ensures (!scarce ==> ok) && (ok ==> Bits == {v} + BitvecHash.Values(old(aiValues[..])))
      ensures Bits <= {v} + BitvecHash.Values(old(aiValues[..]))
      decreases iSize, 2, 2
    {
      ok := Set(v, scarce);
      var rc := SetAll(aiValues, scarce);
      ok := ok && rc;
    }

    /** The loop that sets the saved values anew. */
    method SetAll(aiValues: array<nat>, scarce: bool) returns (ok: bool)
      requires Valid() && iDivisor > 0 && aiValues.Length == NINT && aiValues !in Repr
      requires forall w :: w in BitvecHash.Values(aiValues[..]) ==> 1 <= w <= iSize
      modifies Repr
      ensures Valid() && fresh(Repr - old(Repr))
      ensures (!scarce ==> ok) && (ok ==> Bits == old(Bits) + BitvecHash.Values(old(aiValues[..])))
      ensures Bits <= old(Bits) + BitvecHash.Values(old(aiValues[..]))
      decreases iSize, 2, 1
    {
      ghost var was := aiValues[..];
      ok := true;
      for j := 0 to NINT
        invariant Valid() && iDivisor > 0 && fresh(Repr - old(Repr)) && aiValues !in Repr
        invariant aiValues[..] == was
        invariant (!scarce ==> ok) && (ok ==> Bits == old(Bits) + BitvecHash.Values(was[..j]))
        invariant Bits <= old(Bits) + BitvecHash.Values(was[..j])
      {
        BitvecHash.ValuesStep(was, j);
        if aiValues[j] != 0 {
          var rc := Set(aiValues[j], scarce);
          ok := ok && rc;
        }
      }
      assert was[..NINT] == was;
    }

    /** memset of apSub and the choice of iDivisor. */
    method MakeEmptyParent()
      requires Valid() && iSize > NBIT && iDivisor == 0
      modifies this, apSub
      ensures Valid() && Repr == old(Repr) && iDivisor > 0 && Bits == {}
    {
      DivisorCovers(iSize);
      forall b | 0 <= b < NPTR { apSub[b] := null; }
      iDivisor := ((iSize + NPTR - 1) % U32) / NPTR;
      Bits := {};
      UnionOfNothing(iSize, iDivisor, SubBits());
    }

    /** sqlite3BitvecSet on a node that is a hash table. */
    method SetInHash(v: nat, scarce: bool) returns (ok: bool)
      requires Valid() && iSize > NBIT && iDivisor == 0 && 1 <= v <= iSize
      modifies Repr
      ensures Valid() && fresh(Repr - old(Repr))
      ensures (!scarce ==> ok) && (ok ==> Bits == old(Bits) + {v})
      ensures !ok ==> Bits <= old(Bits) + {v}
      decreases iSize, 4
    {
      var direct := aHash[BitvecHash.Home(v)] == 0;
      var h := BitvecHash.Probe(aHash, nSet, v);
      if aHash[h] == v {
        return true;
      }
      if MustSplit(direct, nSet) {
        ok := Convert(v, scarce);
        return;
      }
      BitvecHash.Store(aHash[..], nSet, v, h);
      nSet := nSet + 1;
      aHash[h] := v;
      Bits := Bits + {v};
      assert aHash[..] == old(aHash[..])[h := v];
      ok := true;
    }

    /** sqlite3BitvecSet: success adds exactly v; running out of memory leaves a valid structure
        whose set is some subset of the old one and v.  Nothing fails unless memory is scarce. */
    method Set(v: nat, scarce: bool) returns (ok: bool)
      requires Valid() && 1 <= v <= iSize
      modifies Repr
      ensures Valid() && fresh(Repr - old(Repr))
      ensures old(iDivisor) > 0 ==> iDivisor == old(iDivisor)
      ensures (!scarce ==> ok) && (ok ==> Bits == old(Bits) + {v})
      ensures !ok ==> Bits <= old(Bits) + {v}
      decreases iSize, if iDivisor > 0 then 2 else 5, 0
    {
      if iSize > NBIT && iDivisor != 0 {
        ok := SetInChild(v, scarce);
      } else if iSize <= NBIT {
        BitvecMap.Set(aBitmap, iSize, Bits, v);
        Bits := Bits + {v};
        ok := true;
      } else {
        ok := SetInHash(v, scarce);
      }
    }
  }

  // ----- the built-in test

  /** The instructions of the test program: set or clear a number in both the Bitvec and the linear
      array, or, to provoke a fault on purpose, in the linear array only. */
  datatype Op = SetBoth(v: nat) | ClearBoth(v: nat) | SetArrayOnly(v: nat)

  /** The linear array shows the set. */
  ghost predicate Shows(pV: seq<bool>, bits: set<nat>) {
    forall v :: 0 < v < |pV| ==> (pV[v] <==> v in bits)
  }

  ghost predicate NoFault(program: seq<Op>) {
    forall pc :: 0 <= pc < |program| ==> !program[pc].SetArrayOnly?
  }

  /** The set and the linear array after one instruction. */
  function BitsNext(bits: set<nat>, op: Op): set<nat> {
    match op
    case SetBoth(v) => bits + {v}
    case ClearBoth(v) => bits - {v}
    case SetArrayOnly(_) => bits
  }

  function LinearNext(linear: seq<bool>, op: Op): seq<bool>
    requires op.v < |linear|
  {
    linear[op.v := !op.ClearBoth?]
  }

  predicate InRange(program: seq<Op>, sz: nat) {
    forall pc :: 0 <= pc < |program| ==> 1 <= program[pc].v <= sz
  }

  /** The set and the linear array after a program, from none. */
  function BitsAfter(program: seq<Op>): set<nat> {
    if program == [] then {} else BitsNext(BitsAfter(program[..|program| - 1]), program[|program| - 1])
  }

  function LinearAfter(sz: nat, program: seq<Op>): (linear: seq<bool>)
    requires InRange(program, sz)
    ensures |linear| == sz + 1
  {
    if program == [] then seq(sz + 1, _ => false)
    else LinearNext(LinearAfter(sz, program[..|program| - 1]), program[|program| - 1])
  }

  /** Without a fault the two agree. */
  lemma {:induction false} NoFaultAgrees(sz: nat, program: seq<Op>)
    requires InRange(program, sz) && NoFault(program)
    ensures Shows(LinearAfter(sz, program), BitsAfter(program))
  {
    if program != [] {
      NoFaultAgrees(sz, program[..|program| - 1]);
    }
  }

  /** The last instruction for v, if there is one. */
  function LastOn(program: seq<Op>, v: nat): Option<Op> {
    if program == [] then None
    else if program[|program| - 1].v == v then Some(program[|program| - 1])
    else LastOn(program[..|program| - 1], v)
  }

  /** A provoked fault shows exactly when no later instruction for its number covers it up and the number
      was not in the set anyway. */
  lemma {:induction false} FaultShows(sz: nat, program: seq<Op>, v: nat)
    requires InRange(program, sz) && 1 <= v <= sz
    ensures (LinearAfter(sz, program)[v] <==> v in BitsAfter(program)) <==>
      !(LastOn(program, v).Some? && LastOn(program, v).value.SetArrayOnly? && v !in BitsAfter(program))
  {
    if program != [] {
      FaultShows(sz, program[..|program| - 1], v);
    }
  }

  /** One instruction, on both or on the linear array only. */
  method Execute(p: Bitvec, pV: array<bool>, op: Op, scarce: bool) returns (ok: bool)
    requires p.Valid() && pV.Length == p.iSize + 1 && pV !in p.Repr && 1 <= op.v <= p.iSize
    modifies p.Repr, pV
    ensures p.Valid() && fresh(p.Repr - old(p.Repr)) && pV !in p.Repr
    ensures !scarce ==> ok
    ensures pV[..] == LinearNext(old(pV[..]), op)
    ensures ok ==> p.Bits == BitsNext(old(p.Bits), op)
  {
    ok := true;
    pV[op.v] := !op.ClearBoth?;
    if op.ClearBoth? {
      p.RangeInBounds(op.v);
      p.Clear(op.v);
    } else if op.SetBoth? {
      ok := p.Set(op.v, scarce);
    }
  }

  /** The loop over the instructions; it ends early only when memory runs out. */
  method RunProgram(p: Bitvec, pV: array<bool>, program: seq<Op>, scarce: bool) returns (ok: bool)
    requires p.Valid() && pV.Length == p.iSize + 1 && pV !in p.Repr && InRange(program, p.iSize)
    requires p.Bits == {} && pV[..] == LinearAfter(p.iSize, [])
    modifies p.Repr, pV
    ensures p.Valid() && (!scarce ==> ok)
    ensures ok ==> p.Bits == BitsAfter(program) && pV[..] == LinearAfter(p.iSize, program)
  {
    for pc := 0 to |program|
      invariant p.Valid() && fresh(p.Repr - old(p.Repr)) && pV !in p.Repr
      invariant p.Bits == BitsAfter(program[..pc]) && pV[..] == LinearAfter(p.iSize, program[..pc])
    {
      assert program[..pc + 1][..pc] == program[..pc];
      ok := Execute(p, pV, program[pc], scarce);
      if !ok {
        return;
      }
    }
    assert program[..|program|] == program;
    ok := true;
  }

  /** sqlite3BitvecBuiltinTest: -1 only when memory runs out; otherwise the Bitvec and the linear array are
      what the program makes of them, and the result is the first number on which they differ, or 0. */
  method BuiltinTest(sz: nat, program: seq<Op>, scarce: bool)
    returns (rc: int, ghost bits: set<nat>, ghost linear: seq<bool>)
    requires 0 < sz <= MAX_SIZE && InRange(program, sz)
    ensures rc >= -1 && (rc == -1 ==> scarce)
    ensures rc != -1 ==> bits == BitsAfter(program) && linear == LinearAfter(sz, program)
    ensures rc == 0 ==> Shows(linear, bits)
    ensures rc > 0 ==> rc <= sz && (linear[rc] <==> rc !in bits) && Shows(linear[..rc], bits)
    ensures NoFault(program) ==> rc == 0 || rc == -1
  {
    var p := new Bitvec(sz);
    var pV := new bool[sz + 1](_ => false);
    var ok := RunProgram(p, pV, program, scarce);
    if !ok {
      return -1, p.Bits, pV[..];
    }
    bits, linear := p.Bits, pV[..];
    rc := Compare(p, pV);
    if NoFault(program) {
      NoFaultAgrees(sz, program);
    }
  }

  /** The comparison that ends the test: the first number on which the two differ, or 0. */
  method Compare(p: Bitvec, pV: array<bool>) returns (rc: int)
    requires p.Valid() && pV.Length == p.iSize + 1
    ensures 0 <= rc < pV.Length
    ensures rc == 0 ==> Shows(pV[..], p.Bits)
    ensures rc > 0 ==> (pV[rc] <==> rc !in p.Bits) && Shows(pV[..rc], p.Bits)
  {
    for i := 1 to pV.Length
      invariant Shows(pV[..i], p.Bits)
    {
      var found, _ := p.Test(i);
      if pV[i] != found {
        return i;
      }
    }
    assert pV[..pV.Length] == pV[..];
    rc := 0;
  }
}
