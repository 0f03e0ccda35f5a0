/** The straight bitmap of bitvec.c: one bit per number, in an array of bytes. */
module BitvecMap {
  import opened BitvecLayout

  /** 1 << (i & 7) as a byte. */
  function Mask(i: nat): bv8 {
    match i % 8
    case 0 => 1
    case 1 => 2
    case 2 => 4
    case 3 => 8
    case 4 => 16
    case 5 => 32
    case 6 => 64
    case _ => 128
  }

  predicate Has(b: bv8, i: nat) {
    b & Mask(i) != 0
  }

  function Put(b: bv8, i: nat): bv8 {
    b | Mask(i)
  }

  function Drop(b: bv8, i: nat): bv8 {
    b & !Mask(i)
  }

  lemma HasPut(b: bv8, i: nat, j: nat)
    ensures Has(Put(b, i), j) <==> i % 8 == j % 8 || Has(b, j)
  {
  }

  lemma HasDrop(b: bv8, i: nat, j: nat)
    ensures Has(Drop(b, i), j) <==> i % 8 != j % 8 && Has(b, j)
  {
  }

  /** Bit i of the bytes, counted from 0. */
  predicate Bit<B>(m: seq<B>, i: nat, has: (B, nat) -> bool)
    requires i / 8 < |m|
  {
    has(m[i / 8], i)
  }

  /** The bytes represent exactly the numbers 1..size in s: number v is bit v - 1. */
  ghost predicate Represents<B>(m: seq<B>, size: nat, s: set<nat>, has: (B, nat) -> bool)
    requires size <= 8 * |m|
  {
    && (forall v :: v in s ==> 1 <= v <= size)
    && (forall v: nat :: 1 <= v <= size ==> (v in s <==> Bit(m, v - 1, has)))
  }

  /** Byte b' is b but for bit i, which is want. */
  ghost predicate OneBit<B>(b: B, b': B, i: nat, has: (B, nat) -> bool, want: bool) {
    forall j: nat :: has(b', j) <==> if j % 8 == i % 8 then want else has(b, j)
  }

  /** Changing byte (v - 1) / 8 with a function that makes bit v - 1 want and keeps the others adds or
      removes exactly v. */
  lemma OneByte<B>(
      m: seq<B>, size: nat, s: set<nat>, v: nat, has: (B, nat) -> bool, change: (B, nat) -> B, want: bool)
    requires v >= 1 && size <= 8 * |m| && v <= if want then size else 8 * |m|
    requires Represents(m, size, s, has)
    requires OneBit(m[(v - 1) / 8], change(m[(v - 1) / 8], v - 1), v - 1, has, want)
    ensures Represents(m[(v - 1) / 8 := change(m[(v - 1) / 8], v - 1)], size, if want then s + {v} else s - {v}, has)
  {
    var b := change(m[(v - 1) / 8], v - 1);
    forall i: nat | i < size ensures Bit(m[(v - 1) / 8 := b], i, has) <==> if i == v - 1 then want else Bit(m, i, has) {
      assert i == v - 1 <==> i / 8 == (v - 1) / 8 && i % 8 == (v - 1) % 8;
    }
  }

  lemma PutBit(b: bv8, i: nat)
    ensures OneBit(b, Put(b, i), i, Has, true)
  {
    forall j: nat ensures Has(Put(b, i), j) <==> if j % 8 == i % 8 then true else Has(b, j) {
      HasPut(b, i, j);
    }
  }

  lemma DropBit(b: bv8, i: nat)
    ensures OneBit(b, Drop(b, i), i, Has, false)
  {
    forall j: nat ensures Has(Drop(b, i), j) <==> if j % 8 == i % 8 then false else Has(b, j) {
      HasDrop(b, i, j);
    }
  }

  /** aBitmap[i/8] |= 1 << (i & 7) with i = v - 1 adds exactly v. */
  method Set(a: array<bv8>, size: nat, ghost s: set<nat>, v: nat)
    requires 1 <= v <= size <= 8 * a.Length && Represents(a[..], size, s, Has)
    modifies a
    ensures Represents(a[..], size, s + {v}, Has)
  {
    var i := v - 1;
    PutBit(a[i / 8], i);
    OneByte(a[..], size, s, v, Has, Put, true);
    a[i / 8] := a[i / 8] | Mask(i);
    assert a[..] == old(a[..])[i / 8 := Put(old(a[i / 8]), i)];
  }

  /** aBitmap[i/8] &= ~(1 << (i & 7)) removes exactly v. */
  method Clear(a: array<bv8>, size: nat, ghost s: set<nat>, v: nat)
    requires 1 <= v <= 8 * a.Length && size <= 8 * a.Length && Represents(a[..], size, s, Has)
    modifies a
    ensures Represents(a[..], size, s - {v}, Has)
  {
    var i := v - 1;
    DropBit(a[i / 8], i);
    OneByte(a[..], size, s, v, Has, Drop, false);
    a[i / 8] := a[i / 8] & !Mask(i);
    assert a[..] == old(a[..])[i / 8 := Drop(old(a[i / 8]), i)];
  }

  method Test(a: array<bv8>, size: nat, ghost s: set<nat>, v: nat) returns (found: bool)
    requires 1 <= v <= size <= 8 * a.Length && Represents(a[..], size, s, Has)
    ensures found <==> v in s
  {
    found := Has(a[(v - 1) / 8], v - 1);
    assert found <==> Bit(a[..], v - 1, Has);
  }

  lemma AllZero(m: seq<bv8>, size: nat)
    requires size <= 8 * |m| && forall i :: 0 <= i < |m| ==> m[i] == 0
    ensures Represents(m, size, {}, Has)
  {
  }
}
