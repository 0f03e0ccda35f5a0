/** Thread-specific data of pthreads-win32: associations between threads and keys.

    An association lies on two doubly linked lists at once: its key's row, headed by key->threads
    and linked by nextThread/prevThread, and its thread's column, headed by thread->keys and linked
    by nextKey/prevKey.  The operations run with the locks of implement.h held. */
module TsdLists {

  class Thread {
    var keys: Assoc?
    var nextAssoc: Assoc?

    constructor ()
      ensures keys == null && nextAssoc == null
    {
      keys, nextAssoc := null, null;
    }
  }

  class Key {
    const hasDestructor: bool
    var threads: Assoc?

    constructor (hasDestructor: bool)
      ensures threads == null && this.hasDestructor == hasDestructor
    {
      this.hasDestructor := hasDestructor;
      threads := null;
    }
  }

  class Assoc {
    const thread: Thread
    const key: Key
    var nextKey: Assoc?
    var prevKey: Assoc?
    var nextThread: Assoc?
    var prevThread: Assoc?

    constructor (thread: Thread, key: Key)
      ensures this.thread == thread && this.key == key
    {
      this.thread, this.key := thread, key;
    }
  }

  // ----- one list

  function At(l: seq<Assoc>, i: int): Assoc? {
    if 0 <= i < |l| then l[i] else null
  }

  function Without(l: seq<Assoc>, i: int): seq<Assoc>
    requires 0 <= i < |l|
  {
    l[..i] + l[i + 1..]
  }

  ghost function Elements(l: seq<Assoc>): set<Assoc> {
    set a | a in l
  }

  ghost predicate Distinct(l: seq<Assoc>) {
    forall i, j :: 0 <= i < j < |l| ==> l[i] != l[j]
  }

  // ----- what removal leaves

  function Drop(l: seq<Assoc>, gone: set<Assoc>): seq<Assoc> {
    if l == [] then []
    else if l[0] in gone then Drop(l[1..], gone)
    else [l[0]] + Drop(l[1..], gone)
  }

  /** The part of the list from c on; nothing when c is null. */
  ghost function Ahead(l: seq<Assoc>, c: Assoc?): seq<Assoc> {
    if l == [] || l[0] == c then l else Ahead(l[1..], c)
  }

  lemma {:induction false} DropMembers(l: seq<Assoc>, gone: set<Assoc>)
    ensures forall a :: a in Drop(l, gone) <==> a in l && a !in gone
    ensures |Drop(l, gone)| <= |l|
  {
    if l != [] {
      DropMembers(l[1..], gone);
    }
  }

  lemma {:induction false} DropNone(l: seq<Assoc>, gone: set<Assoc>)
    requires forall a :: a in l ==> a !in gone
    ensures Drop(l, gone) == l
  {
    if l != [] {
      DropNone(l[1..], gone);
    }
  }

  lemma {:induction false} DropTwice(l: seq<Assoc>, gone: set<Assoc>, more: set<Assoc>)
    ensures Drop(Drop(l, gone), more) == Drop(l, gone + more)
  {
    if l != [] {
      DropTwice(l[1..], gone, more);
    }
  }

  lemma {:induction false} DropOne(l: seq<Assoc>, i: nat)
    requires i < |l| && Distinct(l)
    ensures Drop(l, {l[i]}) == Without(l, i)
  {
    if i == 0 {
      DropNone(l[1..], {l[0]});
    } else {
      DropOne(l[1..], i - 1);
    }
  }

  lemma {:induction false} AheadAt(l: seq<Assoc>, i: nat)
    requires i <= |l| && Distinct(l)
    ensures Ahead(l, At(l, i)) == l[i..]
  {
    if 0 < i {
      AheadAt(l[1..], i - 1);
    }
  }

  /** Whoever was to be processed still is, in the same order, but for the one removed. */
  lemma {:induction false} AheadAfterDrop(l: seq<Assoc>, i: nat, c: Assoc?, c': Assoc?)
    requires i < |l| && Distinct(l)
    requires c == null || c in l
    requires c' == if c == l[i] then At(l, i + 1) else c
    ensures Ahead(Drop(l, {l[i]}), c') == Drop(Ahead(l, c), {l[i]})
  {
    var tail := l[1..];
    if i == 0 {
      DropNone(tail, {l[0]});
      if c != l[0] {
        AheadMembers(tail, c);
        DropNone(Ahead(tail, c), {l[0]});
      }
    } else if l[0] != c {
      AheadAfterDrop(tail, i - 1, c, c');
    }
  }

  lemma {:induction false} AheadMembers(l: seq<Assoc>, c: Assoc?)
    ensures forall a :: a in Ahead(l, c) ==> a in l
    ensures c != null && c in l ==> Ahead(l, c) != [] && Ahead(l, c)[0] == c
    ensures c == null ==> Ahead(l, c) == []
  {
    if l != [] && l[0] != c {
      AheadMembers(l[1..], c);
    }
  }

  // ----- all lists together

  type Columns = map<Thread, seq<Assoc>>
  type Rows = map<Key, seq<Assoc>>

  /** Association a lies in its thread's column and in its key's row. */
  ghost predicate Placed(columns: Columns, rows: Rows, a: Assoc) {
    && a.thread in columns && a in columns[a.thread]
    && a.key in rows && a in rows[a.key]
  }

  /** Every live association is placed; the lists hold nothing else and nothing of other threads or
      keys; a thread and a key have at most one association; keys without a destructor have none. */
  ghost predicate Shape(columns: Columns, rows: Rows, live: set<Assoc>) {
    && (forall a :: a in live ==> Placed(columns, rows, a) && a.key.hasDestructor)
    && (forall t, i {:trigger columns[t][i]} :: t in columns && 0 <= i < |columns[t]| ==>
          columns[t][i] in live && columns[t][i].thread == t)
    && (forall t :: t in columns ==> Distinct(columns[t]))
    && (forall k :: k in rows ==> Distinct(rows[k]))
    && (forall k, i {:trigger rows[k][i]} :: k in rows && 0 <= i < |rows[k]| ==>
          rows[k][i] in live && rows[k][i].key == k)
    && (forall a, b :: a in live && b in live && a.thread == b.thread && a.key == b.key ==> a == b)
  }

  lemma WithoutKeeps(l: seq<Assoc>, i: nat, a: Assoc)
    requires i < |l| && Distinct(l)
    ensures a in Without(l, i) <==> a in l && a != l[i]
    ensures Distinct(Without(l, i))
  {
    if a in l && a != l[i] {
      var j :| 0 <= j < |l| && l[j] == a;
      assert Without(l, i)[if j < i then j else j - 1] == a;
    }
  }

  /** Element j of what is left without place i, and its new neighbours: they are the old ones but for
      the two elements next to the gap. */
  lemma AroundGap(l: seq<Assoc>, i: nat, j: nat)
    requires i < |l| && j < |l| - 1 && Distinct(l)
    ensures var m, n := Without(l, i), if j < i then j else j + 1;
      && |m| == |l| - 1 && m[j] == l[n]
      && (m[j] == At(l, i - 1) <==> j + 1 == i) && (m[j] == At(l, i + 1) <==> j == i)
      && At(m, j + 1) == (if j + 1 == i then At(l, i + 1) else At(l, n + 1))
      && At(m, j - 1) == (if j == i then At(l, i - 1) else At(l, n - 1))
  {
    var n := if j < i then j else j + 1;
    assert At(l, i - 1) == l[n] ==> i - 1 == n;
    assert At(l, i + 1) == l[n] ==> i + 1 == n;
  }

  lemma ShapeRemove(columns: Columns, rows: Rows, live: set<Assoc>, a: Assoc, i: nat, j: nat)
    requires Shape(columns, rows, live) && a in live
    requires i < |columns[a.thread]| && columns[a.thread][i] == a
    requires j < |rows[a.key]| && rows[a.key][j] == a
    ensures Shape(columns[a.thread := Without(columns[a.thread], i)], rows[a.key := Without(rows[a.key], j)],
                  live - {a})
  {
    var columns' := columns[a.thread := Without(columns[a.thread], i)];
    var rows' := rows[a.key := Without(rows[a.key], j)];
    forall b | b in live - {a} ensures Placed(columns', rows', b) {
      assert Placed(columns, rows, b);
      WithoutKeeps(columns[a.thread], i, b);
      WithoutKeeps(rows[a.key], j, b);
    }
    forall t, n {:trigger columns'[t][n]} | t in columns' && 0 <= n < |columns'[t]|
      ensures columns'[t][n] in live - {a} && columns'[t][n].thread == t
    {
      if t == a.thread {
        assert columns'[t][n] == columns[t][if n < i then n else n + 1];
        assert columns'[t][n] in Without(columns[t], i);
        WithoutKeeps(columns[t], i, columns'[t][n]);
      } else {
        assert columns'[t][n] == columns[t][n];
      }
    }
    forall k, n {:trigger rows'[k][n]} | k in rows' && 0 <= n < |rows'[k]|
      ensures rows'[k][n] in live - {a} && rows'[k][n].key == k
    {
      if k == a.key {
        assert rows'[k][n] == rows[k][if n < j then n else n + 1];
        assert rows'[k][n] in Without(rows[k], j);
        WithoutKeeps(rows[k], j, rows'[k][n]);
      } else {
        assert rows'[k][n] == rows[k][n];
      }
    }
  }

  lemma ShapeAdd(columns: Columns, rows: Rows, live: set<Assoc>, a: Assoc)
    requires Shape(columns, rows, live) && a !in live && a.key.hasDestructor
    requires a.thread in columns && a.key in rows
    requires forall i :: 0 <= i < |columns[a.thread]| ==> columns[a.thread][i].key != a.key
    ensures Shape(columns[a.thread := [a] + columns[a.thread]], rows[a.key := [a] + rows[a.key]], live + {a})
  {
    var columns' := columns[a.thread := [a] + columns[a.thread]];
    var rows' := rows[a.key := [a] + rows[a.key]];
    forall b | b in live + {a} ensures Placed(columns', rows', b) && b.key.hasDestructor {
      if b != a {
        assert Placed(columns, rows, b);
      } else {
        assert columns'[a.thread][0] == a && rows'[a.key][0] == a;
      }
    }
    forall t, n {:trigger columns'[t][n]} | t in columns' && 0 <= n < |columns'[t]|
      ensures columns'[t][n] in live + {a} && columns'[t][n].thread == t
    {
      if t == a.thread && n > 0 {
        assert columns'[t][n] == columns[t][n - 1];
      }
    }
    forall k, n {:trigger rows'[k][n]} | k in rows' && 0 <= n < |rows'[k]|
      ensures rows'[k][n] in live + {a} && rows'[k][n].key == k
    {
      if k == a.key && n > 0 {
        assert rows'[k][n] == rows[k][n - 1];
      }
    }
    forall b | b in live && b.thread == a.thread ensures b.key != a.key {
      assert Placed(columns, rows, b);
    }
  }

  /** Every thread's list starts at its head, and the backward links are the inverse of the forward
      ones. */
  ghost predicate AllColumns(columns: Columns, live: set<Assoc>)
    reads columns.Keys`keys, live`nextKey, live`prevKey
  {
    && (forall t, i {:trigger columns[t][i]} :: t in columns && 0 <= i < |columns[t]| ==>
          columns[t][i] in live && columns[t][i].thread == t)
    && (forall t :: t in columns ==> t.keys == At(columns[t], 0))
    && (forall t, i {:trigger columns[t][i].nextKey} :: t in columns && 0 <= i < |columns[t]| ==>
          columns[t][i].nextKey == At(columns[t], i + 1))
    && (forall t, i {:trigger columns[t][i].prevKey} :: t in columns && 0 <= i < |columns[t]| ==>
          columns[t][i].prevKey == At(columns[t], i - 1))
  }

  ghost predicate AllRows(rows: Rows, live: set<Assoc>)
    reads rows.Keys`threads, live`nextThread, live`prevThread
  {
    && (forall k, i {:trigger rows[k][i]} :: k in rows && 0 <= i < |rows[k]| ==>
          rows[k][i] in live && rows[k][i].key == k)
    && (forall k :: k in rows ==> k.threads == At(rows[k], 0))
    && (forall k, i {:trigger rows[k][i].nextThread} :: k in rows && 0 <= i < |rows[k]| ==>
          rows[k][i].nextThread == At(rows[k], i + 1))
    && (forall k, i {:trigger rows[k][i].prevThread} :: k in rows && 0 <= i < |rows[k]| ==>
          rows[k][i].prevThread == At(rows[k], i - 1))
  }

  /** The next association a thread is to process is null or on its own list. */
  ghost predicate Cursors(columns: Columns)
    reads columns.Keys`nextAssoc
  {
    forall t :: t in columns ==> t.nextAssoc == null || t.nextAssoc in columns[t]
  }

  method PushColumn(a: Assoc, ghost columns: Columns, ghost live: set<Assoc>)
    requires AllColumns(columns, live) && a !in live && a.thread in columns && Distinct(columns[a.thread])
    modifies a.thread`keys, a`nextKey, a`prevKey, live`prevKey
    ensures AllColumns(columns[a.thread := [a] + columns[a.thread]], live + {a})
  {
    var sp := a.thread;
    ghost var l := columns[sp];
    a.prevKey := null;
    a.nextKey := sp.keys;
    if a.nextKey != null {
      a.nextKey.prevKey := a;
    }
    sp.keys := a;
    ghost var m := [a] + l;
    ghost var columns' := columns[sp := m];
    forall t, j {:trigger columns'[t][j]} | t in columns' && 0 <= j < |columns'[t]|
      ensures columns'[t][j] in live + {a} && columns'[t][j].thread == t
      ensures columns'[t][j].nextKey == At(columns'[t], j + 1) && columns'[t][j].prevKey == At(columns'[t], j - 1)
    {
      if t == sp {
        assert j > 0 ==> m[j] == l[j - 1];
        assert j > 1 ==> m[j] != l[0];
      } else {
        assert columns'[t][j] == columns[t][j];
      }
    }
  }

  /** The neighbours of a, and the head of the list, lead past it. */
  method LinkPastColumn(a: Assoc, prev: Assoc?, next: Assoc?, ghost live: set<Assoc>)
    requires (prev == null || prev in live) && (next == null || next in live)
    modifies a.thread`keys, live`nextKey, live`prevKey
    ensures a.thread.keys == if old(a.thread.keys) == a then next else old(a.thread.keys)
    ensures forall x :: x in live ==> x.nextKey == if x == prev then next else old(x.nextKey)
    ensures forall x :: x in live ==> x.prevKey == if x == next then prev else old(x.prevKey)
  {
    if prev != null {
      prev.nextKey := next;
    }
    if next != null {
      next.prevKey := prev;
    }
    if a.thread.keys == a {
      a.thread.keys := next;
    }
  }

  method UnlinkColumn(a: Assoc, ghost columns: Columns, ghost live: set<Assoc>, ghost i: nat)
    requires AllColumns(columns, live) && a.thread in columns
    requires i < |columns[a.thread]| && columns[a.thread][i] == a && Distinct(columns[a.thread])
    modifies a.thread`keys, live`nextKey, live`prevKey
    ensures AllColumns(columns[a.thread := Without(columns[a.thread], i)], live)
  {
    ghost var l := columns[a.thread];
    ghost var m := Without(l, i);
    var prev, next := a.prevKey, a.nextKey;
    assert prev == At(l, i - 1) == At(m, i - 1) && next == At(l, i + 1) == At(m, i);
    LinkPastColumn(a, prev, next, live);
    forall j {:trigger m[j]} | 0 <= j < |m|
      ensures m[j] in live && m[j].thread == a.thread
      ensures m[j].nextKey == At(m, j + 1) && m[j].prevKey == At(m, j - 1)
    {
      AroundGap(l, i, j);
    }
    ghost var columns' := columns[a.thread := m];
    forall t | t in columns' ensures t.keys == At(columns'[t], 0) {
      assert t == a.thread ==> At(m, 0) == if i == 0 then next else At(l, 0);
    }
    forall t, j {:trigger columns'[t][j]} | t in columns' && 0 <= j < |columns'[t]|
      ensures columns'[t][j] in live && columns'[t][j].thread == t
      ensures columns'[t][j].nextKey == At(columns'[t], j + 1) && columns'[t][j].prevKey == At(columns'[t], j - 1)
    {
      if t != a.thread {
        assert columns'[t][j] == columns[t][j];
      } else {
        assert columns'[t][j] == m[j];
      }
    }
  }

  method PushRow(a: Assoc, ghost rows: Rows, ghost live: set<Assoc>)
    requires AllRows(rows, live) && a !in live && a.key in rows && Distinct(rows[a.key])
    modifies a.key`threads, a`nextThread, a`prevThread, live`prevThread
    ensures AllRows(rows[a.key := [a] + rows[a.key]], live + {a})
  {
    var key := a.key;
    ghost var l := rows[key];
    a.prevThread := null;
    a.nextThread := key.threads;
    if a.nextThread != null {
      a.nextThread.prevThread := a;
    }
    key.threads := a;
    ghost var m := [a] + l;
    ghost var rows' := rows[key := m];
    forall k, j {:trigger rows'[k][j]} | k in rows' && 0 <= j < |rows'[k]|
      ensures rows'[k][j] in live + {a} && rows'[k][j].key == k
      ensures rows'[k][j].nextThread == At(rows'[k], j + 1) && rows'[k][j].prevThread == At(rows'[k], j - 1)
    {
      if k == key {
        assert j > 0 ==> m[j] == l[j - 1];
        assert j > 1 ==> m[j] != l[0];
      } else {
        assert rows'[k][j] == rows[k][j];
      }
    }
  }

  /** The neighbours of a, and the head of the list, lead past it. */
  method LinkPastRow(a: Assoc, prev: Assoc?, next: Assoc?, ghost live: set<Assoc>)
    requires (prev == null || prev in live) && (next == null || next in live)
    modifies a.key`threads, live`nextThread, live`prevThread
    ensures a.key.threads == if old(a.key.threads) == a then next else old(a.key.threads)
    ensures forall x :: x in live ==> x.nextThread == if x == prev then next else old(x.nextThread)
    ensures forall x :: x in live ==> x.prevThread == if x == next then prev else old(x.prevThread)
  {
    if prev != null {
      prev.nextThread := next;
    }
    if next != null {
      next.prevThread := prev;
    }
    if a.key.threads == a {
      a.key.threads := next;
    }
  }

  method UnlinkRow(a: Assoc, ghost rows: Rows, ghost live: set<Assoc>, ghost i: nat)
    requires AllRows(rows, live) && a.key in rows
    requires i < |rows[a.key]| && rows[a.key][i] == a && Distinct(rows[a.key])
    modifies a.key`threads, live`nextThread, live`prevThread
    ensures AllRows(rows[a.key := Without(rows[a.key], i)], live)
  {
    ghost var l := rows[a.key];
    ghost var m := Without(l, i);
    var prev, next := a.prevThread, a.nextThread;
    assert prev == At(l, i - 1) == At(m, i - 1) && next == At(l, i + 1) == At(m, i);
    LinkPastRow(a, prev, next, live);
    forall j {:trigger m[j]} | 0 <= j < |m|
      ensures m[j] in live && m[j].key == a.key
      ensures m[j].nextThread == At(m, j + 1) && m[j].prevThread == At(m, j - 1)
    {
      AroundGap(l, i, j);
    }
    ghost var rows' := rows[a.key := m];
    forall k | k in rows' ensures k.threads == At(rows'[k], 0) {
      assert k == a.key ==> At(m, 0) == if i == 0 then next else At(l, 0);
    }
    forall k, j {:trigger rows'[k][j]} | k in rows' && 0 <= j < |rows'[k]|
      ensures rows'[k][j] in live && rows'[k][j].key == k
      ensures rows'[k][j].nextThread == At(rows'[k], j + 1) && rows'[k][j].prevThread == At(rows'[k], j - 1)
    {
      if k != a.key {
        assert rows'[k][j] == rows[k][j];
      } else {
        assert rows'[k][j] == m[j];
      }
    }
  }

  /** The end of the column half of ptw32_tkAssocDestroy. */
  method HandOver(a: Assoc, ghost columns: Columns, ghost i: nat, next: Assoc?)
    requires Cursors(columns) && a.thread in columns
    requires i < |columns[a.thread]| && columns[a.thread][i] == a && Distinct(columns[a.thread])
    requires next == At(columns[a.thread], i + 1)
    modifies a.thread`nextAssoc
    ensures a.thread.nextAssoc == if old(a.thread.nextAssoc) == a then next else old(a.thread.nextAssoc)
    ensures Cursors(columns[a.thread := Without(columns[a.thread], i)])
  {
    if a.thread.nextAssoc == a {
      a.thread.nextAssoc := next;
    }
    if a.thread.nextAssoc != null {
      WithoutKeeps(columns[a.thread], i, a.thread.nextAssoc);
    }
  }

  /** The column half of ptw32_tkAssocDestroy. */
  method LeaveColumn(a: Assoc, ghost columns: Columns, ghost live: set<Assoc>, ghost i: nat)
    requires AllColumns(columns, live) && Cursors(columns)
    requires a.thread in columns && i < |columns[a.thread]| && columns[a.thread][i] == a && Distinct(columns[a.thread])
    modifies a.thread`keys, a.thread`nextAssoc, live`nextKey, live`prevKey
    ensures AllColumns(columns[a.thread := Without(columns[a.thread], i)], live)
    ensures Cursors(columns[a.thread := Without(columns[a.thread], i)])
    ensures forall t :: t in columns ==>
      t.nextAssoc == if t == a.thread && old(t.nextAssoc) == a then At(columns[t], i + 1) else old(t.nextAssoc)
  {
    var next := a.nextKey;
    assert next == At(columns[a.thread], i + 1);
    UnlinkColumn(a, columns, live, i);
    HandOver(a, columns, i, next);
  }

  /** ptw32_tkAssocDestroy on the two lists. */
  method Unlink(a: Assoc, ghost columns: Columns, ghost rows: Rows, ghost live: set<Assoc>, ghost i: nat, ghost j: nat)
    requires AllColumns(columns, live) && AllRows(rows, live) && Cursors(columns)
    requires a.thread in columns && i < |columns[a.thread]| && columns[a.thread][i] == a && Distinct(columns[a.thread])
    requires a.key in rows && j < |rows[a.key]| && rows[a.key][j] == a && Distinct(rows[a.key])
    modifies a.thread`keys, a.thread`nextAssoc, a.key`threads
    modifies live`nextKey, live`prevKey, live`nextThread, live`prevThread
    ensures AllColumns(columns[a.thread := Without(columns[a.thread], i)], live)
    ensures AllRows(rows[a.key := Without(rows[a.key], j)], live)
    ensures Cursors(columns[a.thread := Without(columns[a.thread], i)])
    ensures forall t :: t in columns ==>
      t.nextAssoc == if t == a.thread && old(t.nextAssoc) == a then At(columns[t], i + 1) else old(t.nextAssoc)
  {
    LeaveColumn(a, columns, live, i);
    UnlinkRow(a, rows, live, j);
  }

  /** An association on no list is no longer needed. */
  lemma Forget(columns: Columns, rows: Rows, live: set<Assoc>, a: Assoc)
    requires AllColumns(columns, live) && AllRows(rows, live) && Shape(columns, rows, live - {a})
    ensures AllColumns(columns, live - {a}) && AllRows(rows, live - {a})
  {
    forall t, i {:trigger columns[t][i]} | t in columns && 0 <= i < |columns[t]| ensures columns[t][i] in live - {a} {
    }
    forall k, i {:trigger rows[k][i]} | k in rows && 0 <= i < |rows[k]| ensures rows[k][i] in live - {a} {
    }
  }
}
