/** Thread-specific data of pthreads-win32: setting values, deleting keys and destroying
    associations, each run with the locks of implement.h held. */
module Tsd {
  import opened TsdLists

  datatype Status = Success | ENOMEM | EAGAIN

  /** Every list of the second table is the list of the first without the associations in gone. */
  ghost predicate Dropped<K>(m: map<K, seq<Assoc>>, m': map<K, seq<Assoc>>, gone: set<Assoc>) {
    && m'.Keys == m.Keys
    && forall k :: k in m ==> m'[k] == Drop(m[k], gone)
  }

  lemma DroppedTwice<K>(
      m: map<K, seq<Assoc>>, m': map<K, seq<Assoc>>, m'': map<K, seq<Assoc>>, gone: set<Assoc>, more: set<Assoc>)
    requires Dropped(m, m', gone) && Dropped(m', m'', more)
    ensures Dropped(m, m'', gone + more)
  {
    forall k | k in m ensures m''[k] == Drop(m[k], gone + more) {
      DropTwice(m[k], gone, more);
    }
  }

  lemma DroppedNothing<K>(m: map<K, seq<Assoc>>)
    ensures Dropped(m, m, {})
  {
    forall k | k in m ensures m[k] == Drop(m[k], {}) {
      DropNone(m[k], {});
    }
  }

  lemma DroppedOne<K>(m: map<K, seq<Assoc>>, k: K, i: nat)
    requires k in m && i < |m[k]| && Distinct(m[k])
    requires forall k' :: k' in m && k' != k ==> m[k][i] !in m[k']
    ensures Dropped(m, m[k := Without(m[k], i)], {m[k][i]})
  {
    DropOne(m[k], i);
    forall k' | k' in m && k' != k ensures m[k'] == Drop(m[k'], {m[k][i]}) {
      DropNone(m[k'], {m[k][i]});
    }
  }

  /** What every thread still has to process, given where it is. */
  ghost function Remaining(columns: Columns, cursor: map<Thread, Assoc?>): Columns
    requires columns.Keys == cursor.Keys
  {
    map t | t in columns :: Ahead(columns[t], cursor[t])
  }

  /** Thread t, who was about to process c, is left with what it had but for the one removed. */
  lemma RemainingOne(columns: Columns, t0: Thread, i: nat, t: Thread, c: Assoc?, c': Assoc?)
    requires t0 in columns && t in columns && i < |columns[t0]| && Distinct(columns[t0])
    requires c == null || c in columns[t]
    requires c' == if t == t0 && c == columns[t0][i] then At(columns[t0], i + 1) else c
    requires t != t0 ==> columns[t0][i] !in columns[t]
    ensures Ahead(columns[t0 := Without(columns[t0], i)][t], c') == Drop(Ahead(columns[t], c), {columns[t0][i]})
  {
    if t == t0 {
      DropOne(columns[t0], i);
      AheadAfterDrop(columns[t0], i, c, c');
    } else {
      AheadMembers(columns[t], c);
      DropNone(Ahead(columns[t], c), {columns[t0][i]});
    }
  }

  /** Where the threads are once the association at place i of t's column is gone. */
  ghost function CursorAfter(columns: Columns, t: Thread, i: nat, cursor: map<Thread, Assoc?>): map<Thread, Assoc?>
    requires t in columns && i < |columns[t]| && t in cursor
  {
    cursor[t := if cursor[t] == columns[t][i] then At(columns[t], i + 1) else cursor[t]]
  }

  lemma CursorMoved(
      columns: Columns, t0: Thread, i: nat, cursor: map<Thread, Assoc?>, cursor': map<Thread, Assoc?>)
    requires t0 in columns && i < |columns[t0]| && cursor.Keys == cursor'.Keys == columns.Keys
    requires forall t :: t in columns ==>
      cursor'[t] == if t == t0 && cursor[t] == columns[t0][i] then At(columns[t], i + 1) else cursor[t]
    ensures cursor' == CursorAfter(columns, t0, i, cursor)
  {
  }

  lemma RemainingAll(columns: Columns, t0: Thread, i: nat, cursor: map<Thread, Assoc?>)
    requires cursor.Keys == columns.Keys && t0 in columns
    requires i < |columns[t0]| && Distinct(columns[t0])
    requires forall t :: t in columns ==> cursor[t] == null || cursor[t] in columns[t]
    requires forall t :: t in columns && t != t0 ==> columns[t0][i] !in columns[t]
    ensures Dropped(Remaining(columns, cursor),
                    Remaining(columns[t0 := Without(columns[t0], i)], CursorAfter(columns, t0, i, cursor)),
                    {columns[t0][i]})
  {
    forall t | t in columns
      ensures Ahead(columns[t0 := Without(columns[t0], i)][t], CursorAfter(columns, t0, i, cursor)[t])
           == Drop(Ahead(columns[t], cursor[t]), {columns[t0][i]})
    {
      RemainingOne(columns, t0, i, t, cursor[t], CursorAfter(columns, t0, i, cursor)[t]);
    }
  }

  /** The lists as mathematical sequences, and the associations on them. */
  datatype World = World(columns: Columns, rows: Rows, live: set<Assoc>)

  ghost predicate Valid(w: World)
    reads w.columns.Keys`keys, w.columns.Keys`nextAssoc, w.rows.Keys`threads, w.live
  {
    && Shape(w.columns, w.rows, w.live)
    && AllColumns(w.columns, w.live) && AllRows(w.rows, w.live) && Cursors(w.columns)
  }

  ghost function Cursor(columns: Columns): map<Thread, Assoc?>
    reads columns.Keys`nextAssoc
  {
    map t | t in columns :: t.nextAssoc
  }

  ghost function ToProcess(w: World): Columns
    reads w.columns.Keys`nextAssoc
  {
    Remaining(w.columns, Cursor(w.columns))
  }

  /** World w' is w without the associations in gone. */
  ghost predicate Lost(w: World, ahead: Columns, w': World, ahead': Columns, gone: set<Assoc>) {
    && Dropped(w.columns, w'.columns, gone) && Dropped(w.rows, w'.rows, gone) && Dropped(ahead, ahead', gone)
    && w'.live == w.live - gone
  }

  ghost function Taken(w: World, a: Assoc, i: nat, j: nat): World
    requires a.thread in w.columns && i < |w.columns[a.thread]|
    requires a.key in w.rows && j < |w.rows[a.key]|
  {
    World(w.columns[a.thread := Without(w.columns[a.thread], i)],
          w.rows[a.key := Without(w.rows[a.key], j)], w.live - {a})
  }

  lemma TakenIsLost(w: World, a: Assoc, i: nat, j: nat, cursor: map<Thread, Assoc?>)
    requires Shape(w.columns, w.rows, w.live) && a in w.live
    requires a.thread in w.columns && i < |w.columns[a.thread]| && w.columns[a.thread][i] == a
    requires a.key in w.rows && j < |w.rows[a.key]| && w.rows[a.key][j] == a
    requires forall t :: t in w.columns && t != a.thread ==> a !in w.columns[t]
    requires forall k :: k in w.rows && k != a.key ==> a !in w.rows[k]
    requires cursor.Keys == w.columns.Keys
    requires forall t :: t in w.columns ==> cursor[t] == null || cursor[t] in w.columns[t]
    ensures Lost(w, Remaining(w.columns, cursor), Taken(w, a, i, j),
                 Remaining(Taken(w, a, i, j).columns, CursorAfter(w.columns, a.thread, i, cursor)), {a})
  {
    DroppedOne(w.columns, a.thread, i);
    DroppedOne(w.rows, a.key, j);
    RemainingAll(w.columns, a.thread, i, cursor);
  }

  method Take(ghost w: World, a: Assoc, ghost i: nat, ghost j: nat)
    requires Valid(w) && a in w.live
    requires a.thread in w.columns && i < |w.columns[a.thread]| && w.columns[a.thread][i] == a
    requires a.key in w.rows && j < |w.rows[a.key]| && w.rows[a.key][j] == a
    requires Shape(Taken(w, a, i, j).columns, Taken(w, a, i, j).rows, w.live - {a})
    modifies a.thread`keys, a.thread`nextAssoc, a.key`threads
    modifies w.live`nextKey, w.live`prevKey, w.live`nextThread, w.live`prevThread
    ensures Valid(Taken(w, a, i, j))
    ensures forall t :: t in w.columns ==>
      t.nextAssoc == if t == a.thread && old(t.nextAssoc) == a then At(w.columns[t], i + 1) else old(t.nextAssoc)
  {
    Unlink(a, w.columns, w.rows, w.live, i, j);
    ghost var w' := Taken(w, a, i, j);
    Forget(w'.columns, w'.rows, w.live, a);
  }

  /** ptw32_tkAssocDestroy: exactly this association leaves its two lists, every other list keeps
      its order, and a thread about to process it is handed the one after it. */
  method Destroy(ghost w: World, a: Assoc) returns (ghost w': World)
    requires Valid(w) && a in w.live
    modifies a.thread`keys, a.thread`nextAssoc, a.key`threads
    modifies w.live`nextKey, w.live`prevKey, w.live`nextThread, w.live`prevThread
    ensures Valid(w') && Lost(w, old(ToProcess(w)), w', ToProcess(w'), {a})
  {
    ghost var i, j := Places(w, a);
    w' := Taken(w, a, i, j);
    ShapeRemove(w.columns, w.rows, w.live, a, i, j);
    TakenIsLost(w, a, i, j, Cursor(w.columns));
    ghost var cursor := Cursor(w.columns);
    Take(w, a, i, j);
    CursorMoved(w.columns, a.thread, i, cursor, Cursor(w.columns));
  }

  lemma Places(w: World, a: Assoc) returns (i: nat, j: nat)
    requires Shape(w.columns, w.rows, w.live) && a in w.live
    ensures a.thread in w.columns && i < |w.columns[a.thread]| && w.columns[a.thread][i] == a
    ensures a.key in w.rows && j < |w.rows[a.key]| && w.rows[a.key][j] == a
    ensures Distinct(w.columns[a.thread]) && Distinct(w.rows[a.key])
    ensures forall t :: t in w.columns && t != a.thread ==> a !in w.columns[t]
    ensures forall k :: k in w.rows && k != a.key ==> a !in w.rows[k]
  {
    assert Placed(w.columns, w.rows, a);
    i :| 0 <= i < |w.columns[a.thread]| && w.columns[a.thread][i] == a;
    j :| 0 <= j < |w.rows[a.key]| && w.rows[a.key][j] == a;
  }

  ghost function Added(w: World, a: Assoc): World
    requires a.thread in w.columns && a.key in w.rows
  {
    World(w.columns[a.thread := [a] + w.columns[a.thread]], w.rows[a.key := [a] + w.rows[a.key]], w.live + {a})
  }

  /** Two associations are of the same thread and key only if they are the same one. */
  ghost predicate HasAssoc(w: World, t: Thread, k: Key)
    requires t in w.columns
  {
    exists i :: 0 <= i < |w.columns[t]| && w.columns[t][i].key == k
  }

  /** A new head changes nothing for whoever is further on. */
  lemma AheadAdded(l: seq<Assoc>, a: Assoc, c: Assoc?)
    requires a !in l && (c == null || c in l)
    ensures Ahead([a] + l, c) == Ahead(l, c)
  {
    assert ([a] + l)[1..] == l;
  }

  lemma AddedCursors(w: World, a: Assoc)
    requires Cursors(w.columns) && a.thread in w.columns && a.key in w.rows
    ensures Cursors(Added(w, a).columns)
  {
    forall t | t in w.columns && t.nextAssoc != null ensures t.nextAssoc in Added(w, a).columns[t] {
      assert t.nextAssoc in w.columns[t];
    }
  }

  /** The two halves of ptw32_tkAssocCreate. */
  method Insert(ghost w: World, a: Assoc)
    requires AllColumns(w.columns, w.live) && AllRows(w.rows, w.live) && a !in w.live
    requires a.thread in w.columns && a.key in w.rows
    requires Distinct(w.columns[a.thread]) && Distinct(w.rows[a.key])
    modifies a.thread`keys, a.key`threads, w.live`prevKey, w.live`prevThread
    modifies a`nextKey, a`prevKey, a`nextThread, a`prevThread
    ensures AllColumns(Added(w, a).columns, w.live + {a}) && AllRows(Added(w, a).rows, w.live + {a})
    ensures forall t :: t in w.columns ==> t.nextAssoc == old(t.nextAssoc)
  {
    ghost var rows, live := Added(w, a).rows, w.live + {a};
    PushRow(a, w.rows, w.live);
    assert AllRows(rows, live);
    PushColumn(a, w.columns, w.live);
    assert AllRows(rows, live);
  }

  method Enlist(ghost w: World, a: Assoc)
    requires Valid(w) && a !in w.live && a.thread in w.columns && a.key in w.rows
    requires a.key.hasDestructor && !HasAssoc(w, a.thread, a.key)
    modifies a.thread`keys, a.key`threads, w.live`prevKey, w.live`prevThread
    modifies a`nextKey, a`prevKey, a`nextThread, a`prevThread
    ensures Valid(Added(w, a))
  {
    ShapeAdd(w.columns, w.rows, w.live, a);
    Insert(w, a);
    AddedCursors(w, a);
  }

  /** ptw32_tkAssocCreate: a new association heads its two lists, whose other members keep their
      order and their turn.  noMemory says whether the allocation fails. */
  method Create(ghost w: World, sp: Thread, key: Key, noMemory: bool)
    returns (status: Status, ghost w': World, a: Assoc?)
    requires Valid(w) && sp in w.columns && key in w.rows && key.hasDestructor && !HasAssoc(w, sp, key)
    modifies sp`keys, key`threads, w.live`prevKey, w.live`prevThread
    ensures Valid(w')
    ensures status == if noMemory then ENOMEM else Success
    ensures noMemory ==> w' == w && a == null
    ensures !noMemory ==> a != null && fresh(a) && a.thread == sp && a.key == key && w' == Added(w, a)
  {
    if noMemory {
      return ENOMEM, w, null;
    }
    var assoc := new Assoc(sp, key);
    Enlist(w, assoc);
    status, w', a := Success, Added(w, assoc), assoc;
  }

  /** Key k is gone with all its associations, and nothing else is. */
  ghost predicate WithoutKey(w: World, ahead: Columns, w': World, ahead': Columns, k: Key)
    requires k in w.rows
  {
    var gone := Elements(w.rows[k]);
    && Dropped(w.columns, w'.columns, gone) && Dropped(ahead, ahead', gone)
    && w'.rows == w.rows - {k} && w'.live == w.live - gone
  }

  lemma AllGone(l: seq<Assoc>, gone: set<Assoc>)
    requires gone <= Elements(l) && Drop(l, gone) == []
    ensures gone == Elements(l)
  {
    DropMembers(l, gone);
    forall a | a in l ensures a in gone {
      assert a in Drop(l, gone) <==> a in l && a !in gone;
    }
  }

  lemma OtherRowKept(w: World, gone: set<Assoc>, k: Key, k': Key)
    requires Shape(w.columns, w.rows, w.live) && k in w.rows && k' in w.rows && k' != k
    requires gone <= Elements(w.rows[k])
    ensures Drop(w.rows[k'], gone) == w.rows[k']
  {
    DropNone(w.rows[k'], gone);
  }

  lemma RowLost(w: World, ahead: Columns, x: World, ahead': Columns, gone: set<Assoc>, k: Key)
    requires Shape(w.columns, w.rows, w.live) && k in w.rows
    requires Lost(w, ahead, x, ahead', gone) && gone <= Elements(w.rows[k]) && x.rows[k] == []
    ensures WithoutKey(w, ahead, World(x.columns, x.rows - {k}, x.live), ahead', k)
  {
    AllGone(w.rows[k], gone);
    forall k' | k' in w.rows && k' != k ensures x.rows[k'] == w.rows[k'] {
      OtherRowKept(w, gone, k, k');
    }
  }

  lemma LostMore(
      w: World, ahead: Columns, x: World, ahead': Columns, y: World, ahead'': Columns, gone: set<Assoc>, a: Assoc)
    requires Lost(w, ahead, x, ahead', gone) && Lost(x, ahead', y, ahead'', {a})
    ensures Lost(w, ahead, y, ahead'', gone + {a})
  {
    DroppedTwice(w.columns, x.columns, y.columns, gone, {a});
    DroppedTwice(w.rows, x.rows, y.rows, gone, {a});
    DroppedTwice(ahead, ahead', ahead'', gone, {a});
  }

  lemma LostNothing(w: World, ahead: Columns)
    ensures Lost(w, ahead, w, ahead, {})
  {
    DroppedNothing(w.columns);
    DroppedNothing(w.rows);
    DroppedNothing(ahead);
  }

  lemma ForgetKey(w: World, k: Key)
    requires Valid(w) && k in w.rows && w.rows[k] == []
    ensures Valid(World(w.columns, w.rows - {k}, w.live))
  {
    var rows := w.rows - {k};
    forall a | a in w.live ensures Placed(w.columns, rows, a) {
      assert Placed(w.columns, w.rows, a);
    }
    forall k', i {:trigger rows[k'][i]} | k' in rows && 0 <= i < |rows[k']|
      ensures rows[k'][i] in w.live && rows[k'][i].key == k'
    {
      assert rows[k'][i] == w.rows[k'][i];
    }
  }

  lemma EmptyRow(w: World, k: Key)
    requires Valid(w) && k in w.rows && (k.threads == null || !k.hasDestructor)
    ensures w.rows[k] == []
  {
    if w.rows[k] != [] {
      RowHead(w, k);
    }
  }

  lemma RowHead(w: World, k: Key)
    requires Valid(w) && k in w.rows && w.rows[k] != []
    ensures k.threads == w.rows[k][0] && k.hasDestructor
  {
    assert k.threads == At(w.rows[k], 0);
    assert w.rows[k][0] in w.live && w.rows[k][0].key == k;
  }

  /** pthread_key_delete: the key's row is emptied and the key is gone; every other list keeps its
      order, and a thread about to process one of the key's associations is handed the next. */
  method KeyDelete(ghost w: World, key: Key) returns (ghost w': World)
    requires Valid(w) && key in w.rows
    modifies w.columns.Keys`keys, w.columns.Keys`nextAssoc, key`threads
    modifies w.live`nextKey, w.live`prevKey, w.live`nextThread, w.live`prevThread
    ensures Valid(w') && WithoutKey(w, old(ToProcess(w)), w', ToProcess(w'), key)
  {
    w' := w;
    ghost var gone: set<Assoc>, ahead := {}, ToProcess(w);
    LostNothing(w, ahead);
    if key.threads != null && key.hasDestructor {
      while key.threads != null
        invariant Valid(w') && Lost(w, ahead, w', ToProcess(w'), gone)
        invariant gone <= Elements(w.rows[key])
        decreases |w'.rows[key]|
      {
        w', gone := DestroyHead(w, ahead, w', gone, key);
      }
    }
    EmptyRow(w', key);
    RowLost(w, ahead, w', ToProcess(w'), gone, key);
    ForgetKey(w', key);
    w' := World(w'.columns, w'.rows - {key}, w'.live);
  }

  /** One turn of the deletion loop. */
  method DestroyHead(ghost w: World, ghost ahead: Columns, ghost x: World, ghost gone: set<Assoc>, key: Key)
    returns (ghost y: World, ghost gone': set<Assoc>)
    requires Valid(x) && key in x.rows && key.threads != null
    requires key in w.rows && Lost(w, ahead, x, ToProcess(x), gone) && gone <= Elements(w.rows[key])
    modifies x.columns.Keys`keys, x.columns.Keys`nextAssoc, key`threads
    modifies x.live`nextKey, x.live`prevKey, x.live`nextThread, x.live`prevThread
    ensures Valid(y) && Lost(w, ahead, y, ToProcess(y), gone') && gone' <= Elements(w.rows[key])
    ensures key in y.rows && |y.rows[key]| < |x.rows[key]|
  {
    var assoc := key.threads;
    assert assoc == x.rows[key][0];
    ghost var ahead' := ToProcess(x);
    y := Destroy(x, assoc);
    HeadLost(w, ahead, x, ahead', y, ToProcess(y), gone, key);
    gone' := gone + {assoc};
  }

  lemma HeadLost(
      w: World, ahead: Columns, x: World, ahead': Columns, y: World, ahead'': Columns, gone: set<Assoc>, key: Key)
    requires key in w.rows && gone <= Elements(w.rows[key]) && Lost(w, ahead, x, ahead', gone)
    requires key in x.rows && x.rows[key] != [] && Lost(x, ahead', y, ahead'', {x.rows[key][0]})
    ensures Lost(w, ahead, y, ahead'', gone + {x.rows[key][0]})
    ensures gone + {x.rows[key][0]} <= Elements(w.rows[key])
    ensures key in y.rows && |y.rows[key]| < |x.rows[key]|
  {
    LostMore(w, ahead, x, ahead', y, ahead'', gone, x.rows[key][0]);
    DropMembers(w.rows[key], gone);
    DropMembers(x.rows[key][1..], {x.rows[key][0]});
  }

  /** What the system stores for each thread under each key. */
  class Slots {
    /** A pair that is not in the map has the value NULL, here 0. */
    var values: map<(Thread, Key), nat>

    constructor ()
      ensures values == map[]
    {
      values := map[];
    }

    /** TlsGetValue. */
    function Get(t: Thread, k: Key): nat
      reads this`values
    {
      if (t, k) in values then values[(t, k)] else 0
    }

    /** TlsSetValue. */
    method Set(t: Thread, k: Key, v: nat)
      modifies this`values
      ensures values == old(values)[(t, k) := v]
    {
      values := values[(t, k) := v];
    }
  }

  /** The search of pthread_setspecific: the association of the thread and the key, if there is one. */
  method Find(ghost w: World, sp: Thread, key: Key) returns (assoc: Assoc?)
    requires Valid(w) && sp in w.columns
    ensures Valid(w)
    ensures assoc == null <==> !HasAssoc(w, sp, key)
    ensures assoc != null ==> assoc in w.live && assoc.thread == sp && assoc.key == key
  {
    ghost var l, n := w.columns[sp], 0;
    assoc := sp.keys;
    while assoc != null
      invariant 0 <= n <= |l| && assoc == At(l, n)
      invariant forall m :: 0 <= m < n ==> l[m].key != key
      decreases |l| - n
    {
      assert assoc == l[n];
      if assoc.key == key {
        return;
      }
      assoc := assoc.nextKey;
      n := n + 1;
    }
  }

  /** pthread_setspecific: the value is stored, and a value the destructor is to see has exactly one
      association, created when there was none.  noMemory and noSlot say whether the allocation and
      TlsSetValue fail. */
  method SetSpecific(ghost w: World, slots: Slots, sp: Thread, key: Key, value: nat, noMemory: bool, noSlot: bool)
    returns (status: Status, ghost w': World, a: Assoc?)
    requires Valid(w) && sp in w.columns && key in w.rows
    modifies slots`values, sp`keys, key`threads, w.live`prevKey, w.live`prevThread
    ensures Valid(w')
    ensures slots.values == if status == Success then old(slots.values)[(sp, key) := value] else old(slots.values)
    ensures a == null ==> w' == w
    ensures a != null ==> fresh(a) && a.thread == sp && a.key == key && w' == Added(w, a)
    ensures a != null <==> NeedsAssoc(w, sp, key, value) && !noMemory
    ensures status ==
      if NeedsAssoc(w, sp, key, value) && noMemory then ENOMEM else if noSlot then EAGAIN else Success
  {
    status, w', a := Associate(w, sp, key, value, noMemory);
    if status == Success {
      status := Store(w', slots, sp, key, value, noSlot);
    }
  }

  /** A value that the destructor is to see, of a thread and a key that have no association yet. */
  ghost predicate NeedsAssoc(w: World, sp: Thread, key: Key, value: nat)
    requires sp in w.columns
  {
    key.hasDestructor && value != 0 && !HasAssoc(w, sp, key)
  }

  /** The first half of pthread_setspecific. */
  method Associate(ghost w: World, sp: Thread, key: Key, value: nat, noMemory: bool)
    returns (status: Status, ghost w': World, a: Assoc?)
    requires Valid(w) && sp in w.columns && key in w.rows
    modifies sp`keys, key`threads, w.live`prevKey, w.live`prevThread
    ensures Valid(w') && status == if NeedsAssoc(w, sp, key, value) && noMemory then ENOMEM else Success
    ensures a == null ==> w' == w
    ensures a != null ==> fresh(a) && a.thread == sp && a.key == key && w' == Added(w, a)
    ensures a != null <==> NeedsAssoc(w, sp, key, value) && !noMemory
  {
    if !key.hasDestructor || value == 0 {
      return Success, w, null;
    }
    var assoc := Find(w, sp, key);
    if assoc != null {
      return Success, w, null;
    }
    status, w', a := Create(w, sp, key, noMemory);
  }

  /** The second half of pthread_setspecific. */
  method Store(ghost w: World, slots: Slots, sp: Thread, key: Key, value: nat, noSlot: bool) returns (status: Status)
    requires Valid(w)
    modifies slots`values
    ensures Valid(w)
    ensures slots.values == if status == Success then old(slots.values)[(sp, key) := value] else old(slots.values)
    ensures status == if noSlot then EAGAIN else Success
  {
    if noSlot {
      return EAGAIN;
    }
    slots.Set(sp, key, value);
    status := Success;
  }
}
