/** Shared-cache locking of SQLite: a connection locks the mutexes of its sharable b-trees in the
    order of their addresses, and gives up the larger ones before it waits for a smaller one. */
module BtMutex {

  /** pBt is the address of the BtShared whose mutex the b-tree needs; locked says that its
      connection has that mutex. */
  class Btree {
    const pBt: nat
    const sharable: bool
    var locked: bool
    var wantToLock: nat
    var pNext: Btree?
    var pPrev: Btree?

    constructor (pBt: nat, sharable: bool)
      ensures this.pBt == pBt && this.sharable == sharable
      ensures !locked && wantToLock == 0 && pNext == null && pPrev == null
    {
      this.pBt, this.sharable := pBt, sharable;
      locked, wantToLock, pNext, pPrev := false, 0, null, null;
    }
  }

  /** A thread that waits for the mutex at want has only smaller ones. */
  ghost predicate Ascends(held: set<nat>, want: nat) {
    forall h :: h in held ==> h < want
  }

  class Connection {
    const aDb: seq<Btree?>
    /** The sharable b-trees as their list has them. */
    ghost const chain: seq<Btree>
    ghost const nodes: set<Btree>

    constructor (aDb: seq<Btree?>, ghost chain: seq<Btree>)
      ensures this.aDb == aDb && this.chain == chain && nodes == set b | b in chain
    {
      this.aDb, this.chain, nodes := aDb, chain, set b | b in chain;
    }

    /** The list is sorted by address and linked both ways, and it has exactly the sharable b-trees
        of aDb, each of which is there once. */
    ghost predicate Listed()
      reads nodes`pNext, nodes`pPrev
    {
      && (forall i :: 0 <= i < |chain| ==> chain[i] in nodes && chain[i].sharable && chain[i] in aDb)
      && (forall b :: b in nodes ==> b in chain)
      && (forall i, j :: 0 <= i < j < |chain| ==> chain[i].pBt < chain[j].pBt)
      && (forall i {:trigger chain[i].pNext} :: 0 <= i < |chain| ==>
            chain[i].pNext == if i + 1 < |chain| then chain[i + 1] else null)
      && (forall i {:trigger chain[i].pPrev} :: 0 <= i < |chain| ==>
            chain[i].pPrev == if i > 0 then chain[i - 1] else null)
      && (forall i :: 0 <= i < |aDb| && aDb[i] != null && aDb[i].sharable ==> aDb[i] in nodes)
      && (forall i, j :: 0 <= i < j < |aDb| && aDb[i] != null && aDb[i].sharable ==> aDb[i] != aDb[j])
    }

    /** Between calls a sharable b-tree is locked exactly when somebody wants it. */
    ghost predicate Settled()
      reads nodes`locked, nodes`wantToLock
    {
      forall b :: b in nodes ==> (b.locked <==> b.wantToLock > 0)
    }

    /** The addresses of the mutexes the connection has. */
    ghost function Held(): set<nat>
      reads nodes`locked
    {
      set b | b in nodes && b.locked :: b.pBt
    }

    /** The connection may wait for the mutex of p: it does not have it, and has only smaller ones. */
    ghost predicate MayWait(p: Btree)
      reads nodes`locked
    {
      p in nodes && !p.locked && Ascends(Held(), p.pBt)
    }

    /** The only place where a thread may wait. */
    method LockBtreeMutex(p: Btree)
      requires MayWait(p)
      modifies p`locked
      ensures p.locked
    {
      p.locked := true;
    }

    method UnlockBtreeMutex(p: Btree)
      requires p in nodes && p.locked
      modifies p`locked
      ensures !p.locked
    {
      p.locked := false;
    }

    /** The back-off loop: nothing from place n on stays locked, and nothing else changes. */
    method ReleaseFrom(first: Btree?, ghost n: nat)
      requires Listed() && n <= |chain| && first == if n < |chain| then chain[n] else null
      modifies nodes`locked
      ensures forall i :: 0 <= i < |chain| ==> chain[i].locked == (i < n && old(chain[i].locked))
    {
      var pLater := first;
      ghost var m := n;
      while pLater != null
        invariant n <= m <= |chain| && pLater == if m < |chain| then chain[m] else null
        invariant forall i :: 0 <= i < |chain| ==> chain[i].locked == (!(n <= i < m) && old(chain[i].locked))
        decreases |chain| - m
      {
        var next := pLater.pNext;
        assert next == if m + 1 < |chain| then chain[m + 1] else null;
        if pLater.locked {
          UnlockBtreeMutex(pLater);
        }
        pLater, m := next, m + 1;
      }
    }

    /** Relocks, in ascending order, what is wanted from place n on, or everything. */
    method LockFrom(first: Btree?, all: bool, ghost n: nat)
      requires Listed() && n <= |chain| && first == if n < |chain| then chain[n] else null
      requires forall i :: n <= i < |chain| ==> !chain[i].locked
      modifies nodes`locked
      ensures forall i :: 0 <= i < |chain| ==>
        chain[i].locked == if i < n then old(chain[i].locked) else all || chain[i].wantToLock > 0
    {
      var pLater := first;
      ghost var m := n;
      while pLater != null
        invariant n <= m <= |chain| && pLater == if m < |chain| then chain[m] else null
        invariant forall i :: 0 <= i < |chain| ==>
          chain[i].locked == if i < n then old(chain[i].locked) else i < m && (all || chain[i].wantToLock > 0)
        decreases |chain| - m
      {
        if all || pLater.wantToLock > 0 {
          HeldBefore(m);
          LockBtreeMutex(pLater);
        }
        var next := pLater.pNext;
        assert next == if m + 1 < |chain| then chain[m + 1] else null;
        pLater, m := next, m + 1;
      }
    }

    lemma HeldBefore(n: nat)
      requires Listed() && n < |chain| && forall i :: n <= i < |chain| ==> !chain[i].locked
      ensures MayWait(chain[n])
    {
      forall b | b in nodes && b.locked ensures b.pBt < chain[n].pBt {
        var i :| 0 <= i < |chain| && chain[i] == b;
      }
    }

    /** sqlite3BtreeEnter: one more call wants p, which is locked now; every other b-tree is as before. */
    method Enter(p: Btree)
      requires Listed() && Settled() && (p.sharable ==> p in nodes)
      modifies p`wantToLock, nodes`locked
      ensures Settled()
      ensures p.wantToLock == old(p.wantToLock) + if p.sharable then 1 else 0
      ensures p.sharable ==> p.locked
      ensures forall b :: b in nodes && b != p ==> b.locked == old(b.locked)
    {
      if !p.sharable {
        return;
      }
      ghost var n :| 0 <= n < |chain| && chain[n] == p;
      p.wantToLock := p.wantToLock + 1;
      if p.locked {
        return;
      }
      var free: bool := *;
      if free {
        // sqlite3_mutex_try does not wait, in whatever order
        p.locked := true;
        return;
      }
      BackOff(p, n);
    }

    /** All larger mutexes are released before the thread waits for p, and locked again after it. */
    method BackOff(p: Btree, ghost n: nat)
      requires Listed() && n < |chain| && chain[n] == p && !p.locked
      requires forall b :: b in nodes && b != p ==> (b.locked <==> b.wantToLock > 0)
      modifies nodes`locked
      ensures p.locked
      ensures forall b :: b in nodes && b != p ==> b.locked == old(b.locked)
    {
      assert p.pNext == if n + 1 < |chain| then chain[n + 1] else null;
      ReleaseFrom(p.pNext, n + 1);
      HeldBefore(n);
      LockBtreeMutex(p);
      LockFrom(p.pNext, false, n + 1);
      forall b | b in nodes && b != p ensures b.locked == old(b.locked) {
        var i :| 0 <= i < |chain| && chain[i] == b;
      }
    }

    /** sqlite3BtreeLeave: undoes one sqlite3BtreeEnter. */
    method Leave(p: Btree)
      requires Settled() && (p.sharable ==> p in nodes && p.wantToLock > 0)
      modifies p`wantToLock, p`locked
      ensures Settled()
      ensures p.wantToLock == old(p.wantToLock) - if p.sharable then 1 else 0
    {
      if p.sharable {
        p.wantToLock := p.wantToLock - 1;
        if p.wantToLock == 0 {
          UnlockBtreeMutex(p);
        }
      }
    }

    /** The head of the list and then the first b-tree that is not locked. */
    method FirstUnlocked(p: Btree) returns (first: Btree, ghost n: nat)
      requires Listed() && p in nodes && !p.locked
      ensures n < |chain| && chain[n] == first && !first.locked
      ensures forall i :: 0 <= i < n ==> chain[i].locked
    {
      ghost var m :| 0 <= m < |chain| && chain[m] == p;
      ghost var k := m;
      first := p;
      while first.pPrev != null
        invariant 0 <= m < |chain| && chain[m] == first
        decreases m
      {
        assert first.pPrev == if m > 0 then chain[m - 1] else null;
        first, m := first.pPrev, m - 1;
      }
      assert m == 0;
      n := 0;
      while first.locked && first.pNext != null
        invariant n <= k && chain[n] == first
        invariant forall i :: 0 <= i < n ==> chain[i].locked
        decreases |chain| - n
      {
        assert first.pNext == if n + 1 < |chain| then chain[n + 1] else null;
        first, n := first.pNext, n + 1;
      }
    }

    /** Everything is locked, in ascending order. */
    method LockAll(p: Btree)
      requires Listed() && p in nodes && !p.locked
      modifies nodes`locked
      ensures forall b :: b in nodes ==> b.locked
    {
      var first, n := FirstUnlocked(p);
      assert first.pNext == if n + 1 < |chain| then chain[n + 1] else null;
      ReleaseFrom(first.pNext, n + 1);
      LockFrom(first, true, n);
      forall b | b in nodes ensures b.locked {
        var i :| 0 <= i < |chain| && chain[i] == b;
      }
    }

    /** Whether b is one of the first n databases. */
    ghost predicate Visited(n: nat, b: Btree)
      requires n <= |aDb|
    {
      b in aDb[..n]
    }

    lemma VisitedAll(b: Btree)
      requires Listed() && b in nodes
      ensures Visited(|aDb|, b)
    {
      assert aDb[..|aDb|] == aDb;
      var i :| 0 <= i < |chain| && chain[i] == b;
    }

    lemma VisitedMore(n: nat, b: Btree)
      requires Listed() && n < |aDb| && b in nodes
      ensures Visited(n + 1, b) <==> Visited(n, b) || aDb[n] == b
      ensures aDb[n] == b ==> !Visited(n, b)
    {
      assert aDb[..n + 1] == aDb[..n] + [aDb[n]];
      if aDb[n] == b {
        assert forall i :: 0 <= i < n ==> aDb[i] != b;
      }
    }

    /** The turn of sqlite3BtreeEnterAll for p. */
    method EnterOne(p: Btree)
      requires Listed() && p in nodes && (!p.locked ==> p.wantToLock == 0)
      modifies p`wantToLock, nodes`locked
      ensures p.wantToLock == old(p.wantToLock) + 1
      ensures forall b :: b in nodes ==> b.locked == (old(b.locked) || !old(p.locked))
    {
      p.wantToLock := p.wantToLock + 1;
      if !p.locked {
        assert p.wantToLock == 1;
        LockAll(p);
      }
    }

    /** sqlite3BtreeEnterAll: every b-tree is wanted once more and locked. */
    method EnterAll()
      requires Listed() && Settled()
      modifies nodes`locked, nodes`wantToLock
      ensures Settled()
      ensures forall b :: b in nodes ==> b.wantToLock == old(b.wantToLock) + 1
    {
      var i := 0;
      ghost var any := false;
      while i < |aDb|
        invariant 0 <= i <= |aDb|
        invariant forall b :: b in nodes ==> b.wantToLock == old(b.wantToLock) + if Visited(i, b) then 1 else 0
        invariant forall b :: b in nodes ==> b.locked == (any || old(b.locked))
        invariant forall b :: b in nodes && Visited(i, b) ==> b.locked
      {
        var p := aDb[i];
        forall b | b in nodes ensures Visited(i + 1, b) <==> Visited(i, b) || aDb[i] == b {
          VisitedMore(i, b);
        }
        if p != null && p.sharable {
          VisitedMore(i, p);
          any := any || !p.locked;
          EnterOne(p);
        }
        i := i + 1;
      }
      forall b | b in nodes ensures Visited(i, b) {
        VisitedAll(b);
      }
    }

    /** sqlite3BtreeLeaveAll: undoes one sqlite3BtreeEnterAll. */
    method LeaveAll()
      requires Listed() && Settled() && forall b :: b in nodes ==> b.wantToLock > 0
      modifies nodes`locked, nodes`wantToLock
      ensures Settled()
      ensures forall b :: b in nodes ==> b.wantToLock == old(b.wantToLock) - 1
    {
      var i := 0;
      while i < |aDb|
        invariant 0 <= i <= |aDb|
        invariant forall b :: b in nodes ==> b.wantToLock == old(b.wantToLock) - if Visited(i, b) then 1 else 0
        invariant Settled()
      {
        var p := aDb[i];
        forall b | b in nodes ensures Visited(i + 1, b) <==> Visited(i, b) || aDb[i] == b {
          VisitedMore(i, b);
        }
        if p != null && p.sharable {
          VisitedMore(i, p);
          p.wantToLock := p.wantToLock - 1;
          if p.wantToLock == 0 {
            UnlockBtreeMutex(p);
          }
        }
        i := i + 1;
      }
      forall b | b in nodes ensures Visited(i, b) {
        VisitedAll(b);
      }
    }

    /** One turn of sqlite3BtreeMutexArrayEnter. */
    method EnterSorted(p: Btree)
      requires p in nodes && Settled() && (!p.locked ==> MayWait(p))
      modifies p`locked, p`wantToLock
      ensures Settled() && p.locked && p.wantToLock == old(p.wantToLock) + 1
      ensures Held() == old(Held()) + {p.pBt}
    {
      p.wantToLock := p.wantToLock + 1;
      if !p.locked {
        LockBtreeMutex(p);
      }
    }

    /** Entering all and leaving all gives every b-tree back as it was. */
    method EnterAllLeaveAll()
      requires Listed() && Settled()
      modifies nodes`locked, nodes`wantToLock
      ensures forall b :: b in nodes ==> b.locked == old(b.locked) && b.wantToLock == old(b.wantToLock)
    {
      EnterAll();
      LeaveAll();
    }
  }

  // ----- the array of the virtual machine

  ghost predicate Sorted(bs: seq<Btree>) {
    forall i, j :: 0 <= i < j < |bs| ==> bs[i].pBt < bs[j].pBt
  }

  function Inserted(bs: seq<Btree>, b: Btree): seq<Btree> {
    if bs == [] || bs[0].pBt > b.pBt then [b] + bs else [bs[0]] + Inserted(bs[1..], b)
  }

  /** Insertion keeps the array sorted. */
  lemma {:induction false} InsertedSorted(bs: seq<Btree>, b: Btree)
    requires Sorted(bs) && forall i :: 0 <= i < |bs| ==> bs[i].pBt != b.pBt
    ensures Sorted(Inserted(bs, b))
  {
    if bs != [] && bs[0].pBt < b.pBt {
      var rest := Inserted(bs[1..], b);
      InsertedSorted(bs[1..], b);
      forall j | 0 <= j < |rest| ensures bs[0].pBt < rest[j].pBt {
        InsertedMember(bs[1..], b, rest[j]);
        if rest[j] in bs[1..] {
          var k :| 0 <= k < |bs| - 1 && bs[1..][k] == rest[j];
          assert bs[k + 1] == rest[j];
        }
      }
    }
  }

  /** It adds exactly the new b-tree. */
  lemma {:induction false} InsertedOnce(bs: seq<Btree>, b: Btree)
    ensures multiset(Inserted(bs, b)) == multiset(bs) + multiset{b}
  {
    if bs != [] && bs[0].pBt <= b.pBt {
      InsertedOnce(bs[1..], b);
      assert bs == [bs[0]] + bs[1..];
    }
  }

  lemma {:induction false} InsertedMember(bs: seq<Btree>, b: Btree, x: Btree)
    ensures x in Inserted(bs, b) <==> x in bs || x == b
  {
    if bs != [] && bs[0].pBt <= b.pBt {
      InsertedMember(bs[1..], b, x);
      assert bs == [bs[0]] + bs[1..];
    }
  }

  lemma {:induction false} InsertedAt(bs: seq<Btree>, b: Btree, i: nat)
    requires i <= |bs| && forall k :: 0 <= k < i ==> bs[k].pBt <= b.pBt
    requires i < |bs| ==> bs[i].pBt > b.pBt
    ensures Inserted(bs, b) == bs[..i] + [b] + bs[i..]
  {
    if i > 0 {
      InsertedAt(bs[1..], b, i - 1);
      assert bs[..i] == [bs[0]] + bs[1..][..i - 1];
      assert bs[i..] == bs[1..][i - 1..];
    }
  }

  class BtreeMutexArray {
    var nMutex: nat
    const aBtree: array<Btree?>

    ghost predicate Valid()
      reads this, aBtree
    {
      nMutex <= aBtree.Length && forall i :: 0 <= i < nMutex ==> aBtree[i] != null && aBtree[i].sharable
    }

    function Contents(): (bs: seq<Btree>)
      requires Valid()
      reads this, aBtree
      ensures |bs| == nMutex && forall i :: 0 <= i < nMutex ==> bs[i] == aBtree[i]
    {
      seq(nMutex, i requires 0 <= i < nMutex && Valid() reads this, aBtree => aBtree[i])
    }

    constructor (size: nat)
      ensures Valid() && nMutex == 0 && aBtree.Length == size && fresh(aBtree)
    {
      nMutex, aBtree := 0, new Btree?[size];
    }

    /** sqlite3BtreeMutexArrayInsert. */
    method Insert(pBtree: Btree?)
      requires Valid() && nMutex < aBtree.Length - 1
      requires pBtree !in Contents()
      modifies this`nMutex, aBtree
      ensures Valid()
      ensures Contents() ==
        if pBtree == null || !pBtree.sharable then old(Contents()) else Inserted(old(Contents()), pBtree)
    {
      if pBtree == null || !pBtree.sharable {
        return;
      }
      ghost var before := Contents();
      var i := 0;
      while i < nMutex
        invariant 0 <= i <= nMutex == |before| && Valid() && Contents() == before
        invariant forall k :: 0 <= k < i ==> before[k].pBt <= pBtree.pBt
      {
        assert aBtree[i] == before[i];
        if aBtree[i].pBt > pBtree.pBt {
          Shift(i);
          aBtree[i] := pBtree;
          nMutex := nMutex + 1;
          InsertedAt(before, pBtree, i);
          assert Contents() == before[..i] + [pBtree] + before[i..];
          return;
        }
        i := i + 1;
      }
      InsertedAt(before, pBtree, i);
      aBtree[nMutex] := pBtree;
      nMutex := nMutex + 1;
      assert Contents() == before[..i] + [pBtree] + before[i..];
    }

    /** The inner loop of the insertion: everything from place i on moves up. */
    method Shift(i: nat)
      requires Valid() && i < nMutex < aBtree.Length
      modifies aBtree
      ensures forall k :: 0 <= k < aBtree.Length ==>
        aBtree[k] == if i < k <= nMutex then old(aBtree[k - 1]) else old(aBtree[k])
    {
      var j := nMutex;
      while j > i
        invariant i <= j <= nMutex
        invariant forall k :: 0 <= k < aBtree.Length ==>
          aBtree[k] == if j < k <= nMutex then old(aBtree[k - 1]) else old(aBtree[k])
      {
        aBtree[j] := aBtree[j - 1];
        j := j - 1;
      }
    }

    /** No mutex the connection has is larger than one the array still has to lock. */
    ghost predicate NoneLarger(c: Connection)
      requires Valid()
      reads this, aBtree, c.nodes`locked
    {
      forall i :: 0 <= i < nMutex && aBtree[i] in c.nodes && !aBtree[i].locked ==> c.MayWait(aBtree[i])
    }

    /** sqlite3BtreeMutexArrayEnter. */
    method Enter(c: Connection)
      requires Valid() && Sorted(Contents()) && c.Settled() && NoneLarger(c)
      requires forall i :: 0 <= i < nMutex ==> aBtree[i] in c.nodes
      modifies c.nodes`locked, c.nodes`wantToLock
      ensures c.Settled()
      ensures forall b :: b in c.nodes ==> b.wantToLock == old(b.wantToLock) + if b in Contents() then 1 else 0
    {
      ghost var bs := Contents();
      var i := 0;
      while i < nMutex
        invariant 0 <= i <= nMutex && c.Settled()
        invariant forall b :: b in c.nodes ==> b.wantToLock == old(b.wantToLock) + if b in bs[..i] then 1 else 0
        invariant forall k :: i <= k < nMutex && !bs[k].locked ==> c.MayWait(bs[k])
      {
        var p := aBtree[i];
        assert bs[..i + 1] == bs[..i] + [p];
        assert p !in bs[..i];
        c.EnterSorted(p);
        i := i + 1;
      }
      assert bs[..i] == bs;
    }

    /** sqlite3BtreeMutexArrayLeave: undoes one sqlite3BtreeMutexArrayEnter. */
    method Leave(c: Connection)
      requires Valid() && Sorted(Contents()) && c.Settled()
      requires forall i :: 0 <= i < nMutex ==> aBtree[i] in c.nodes && aBtree[i].wantToLock > 0
      modifies c.nodes`locked, c.nodes`wantToLock
      ensures c.Settled()
      ensures forall b :: b in c.nodes ==> b.wantToLock == old(b.wantToLock) - if b in Contents() then 1 else 0
    {
      ghost var bs := Contents();
      var i := 0;
      while i < nMutex
        invariant 0 <= i <= nMutex && c.Settled()
        invariant forall b :: b in c.nodes ==> b.wantToLock == old(b.wantToLock) - if b in bs[..i] then 1 else 0
      {
        var p := aBtree[i];
        assert bs[..i + 1] == bs[..i] + [p];
        assert p !in bs[..i];
        p.wantToLock := p.wantToLock - 1;
        if p.wantToLock == 0 {
          c.UnlockBtreeMutex(p);
        }
        i := i + 1;
      }
      assert bs[..i] == bs;
    }
  }

  /** Whether every wait is in ascending order when the addresses of todo are locked one after the
      other by a thread that has held. */
  ghost predicate LocksAscending(held: set<nat>, todo: seq<nat>)
    decreases |todo|
  {
    todo == [] ||
    ((todo[0] in held || Ascends(held, todo[0])) && LocksAscending(held + {todo[0]}, todo[1..]))
  }

  /** A sorted array waits in ascending order only if, and always if, nothing larger is held than
      what it still has to lock. */
  lemma {:induction false} ArrayOrder(held: set<nat>, todo: seq<nat>)
    requires forall i, j :: 0 <= i < j < |todo| ==> todo[i] < todo[j]
    ensures LocksAscending(held, todo) <==>
      forall i :: 0 <= i < |todo| && todo[i] !in held ==> Ascends(held, todo[i])
    decreases |todo|
  {
    if todo != [] {
      var first := todo[0];
      ArrayOrder(held + {first}, todo[1..]);
      assert forall i :: 0 <= i < |todo| - 1 ==> todo[1..][i] == todo[i + 1];
      assert forall i {:trigger todo[i]} :: 0 < i < |todo| ==> todo[i] == todo[1..][i - 1];
    }
  }

  // ----- all threads

  ghost function AllNodes(cs: seq<Connection>): set<Btree> {
    set c, b | c in cs && b in c.nodes :: b
  }

  /** One thread for each connection, inside LockBtreeMutex for waits[t] unless that is null.  The
      mutexes do what mutexes do: each has at most one owner, and nobody waits for a free one. */
  ghost predicate Snapshot(cs: seq<Connection>, waits: seq<Btree?>)
    reads AllNodes(cs)`locked
  {
    && |waits| == |cs|
    && (forall t, u, a :: 0 <= t < |cs| && 0 <= u < |cs| && a in cs[t].Held() && a in cs[u].Held() ==> t == u)
    && (forall t :: 0 <= t < |cs| && waits[t] != null ==> cs[t].MayWait(waits[t]) && HeldBySome(cs, waits[t].pBt))
  }

  ghost predicate HeldBySome(cs: seq<Connection>, a: nat)
    reads AllNodes(cs)`locked
  {
    exists u :: 0 <= u < |cs| && a in cs[u].Held()
  }

  /** Thread t waits for a mutex that thread u has. */
  ghost predicate WaitsFor(cs: seq<Connection>, waits: seq<Btree?>, t: nat, u: nat)
    requires |waits| == |cs|
    reads AllNodes(cs)`locked
  {
    t < |cs| && u < |cs| && waits[t] != null && waits[t].pBt in cs[u].Held()
  }

  /** Along a chain of waiting threads the addresses grow, so it never comes back to where it began. */
  lemma {:induction false} WaitChain(cs: seq<Connection>, waits: seq<Btree?>, path: seq<nat>)
    requires Snapshot(cs, waits) && |path| > 1 && forall i :: 0 <= i < |path| ==> path[i] < |cs|
    requires forall i :: 0 <= i < |path| - 1 ==> WaitsFor(cs, waits, path[i], path[i + 1])
    ensures waits[path[0]] != null
    ensures waits[path[|path| - 1]] != null ==> waits[path[0]].pBt < waits[path[|path| - 1]].pBt
    ensures path[0] != path[|path| - 1]
  {
    assert WaitsFor(cs, waits, path[0], path[1]);
    if waits[path[1]] != null {
      assert cs[path[1]].MayWait(waits[path[1]]);
    }
    if |path| > 2 {
      WaitChain(cs, waits, path[1..]);
    }
  }

  /** Shared-cache locking cannot deadlock: whoever waits, some thread that others wait for runs. */
  lemma NoDeadlock(cs: seq<Connection>, waits: seq<Btree?>, t: nat) returns (w: nat, h: nat)
    requires Snapshot(cs, waits) && t < |cs| && waits[t] != null
    ensures WaitsFor(cs, waits, w, h) && waits[h] == null
  {
    w := LargestWait(waits, t);
    assert HeldBySome(cs, waits[w].pBt);
    h :| 0 <= h < |cs| && waits[w].pBt in cs[h].Held();
  }

  lemma {:induction false} LargestWait(waits: seq<Btree?>, t: nat) returns (w: nat)
    requires t < |waits| && waits[t] != null
    ensures w < |waits| && waits[w] != null
    ensures forall u :: 0 <= u < |waits| && waits[u] != null ==> waits[u].pBt <= waits[w].pBt
  {
    w := t;
    for n := 0 to |waits|
      invariant w < |waits| && waits[w] != null
      invariant forall u :: 0 <= u < n && waits[u] != null ==> waits[u].pBt <= waits[w].pBt
    {
      if waits[n] != null && waits[n].pBt > waits[w].pBt {
        w := n;
      }
    }
  }
}
