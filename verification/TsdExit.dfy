/** Thread exit: ptw32_callUserDestroyRoutines runs destructors over a list that changes under it.

    Whenever the exiting thread does not hold the two locks, other threads may set values, delete
    keys and exit themselves; a destructor may do all of that too, and set values of the exiting
    thread.  A Registry tells them which threads, keys and associations there are.  Threads and keys
    that come into use later are in it from the start with empty lists, as many as the run needs. */
module TsdExit {
  import opened TsdLists
  import opened Tsd

  const PTHREAD_DESTRUCTOR_ITERATIONS := 4

  datatype Registry = Registry(threads: set<Thread>, keys: set<Key>, assocs: set<Assoc>)

  ghost predicate Known(r: Registry, w: World) {
    r.threads == w.columns.Keys && r.keys == w.rows.Keys && r.assocs == w.live
  }

  /** What somebody else's step does to the exiting thread: its list l and the part of it still to
      be processed lose the associations in gone.  Only the thread itself puts new ones on its list. */
  ghost predicate Passed(
      l: seq<Assoc>, ahead: seq<Assoc>, l': seq<Assoc>, ahead': seq<Assoc>, gone: set<Assoc>, own: bool)
  {
    && ahead' == Drop(ahead, gone)
    && (!own ==> l' == Drop(l, gone))
  }

  lemma PassedTwice(
      l: seq<Assoc>, ahead: seq<Assoc>, l': seq<Assoc>, ahead': seq<Assoc>, l'': seq<Assoc>, ahead'': seq<Assoc>,
      gone: set<Assoc>, more: set<Assoc>, own: bool)
    requires Passed(l, ahead, l', ahead', gone, own) && Passed(l', ahead', l'', ahead'', more, own)
    ensures Passed(l, ahead, l'', ahead'', gone + more, own)
  {
    DropTwice(l, gone, more);
    DropTwice(ahead, gone, more);
  }

  lemma PassedNothing(l: seq<Assoc>, ahead: seq<Assoc>)
    ensures Passed(l, ahead, l, ahead, {}, false)
  {
    DropNone(l, {});
    DropNone(ahead, {});
  }

  // ----- what others do to the values

  type Values = map<(Thread, Key), nat>

  ghost function ValueOf(values: Values, p: (Thread, Key)): nat {
    if p in values then values[p] else 0
  }

  /** A step of somebody, which has set a value or not. */
  datatype Act = SetValue(t: Thread, k: Key, v: nat) | Otherwise

  /** The values after the acts: only those that set one change any. */
  ghost function Applied(values: Values, acts: seq<Act>): Values {
    if acts == [] then values
    else
      var before, act := Applied(values, acts[..|acts| - 1]), acts[|acts| - 1];
      match act
      case SetValue(t, k, v) => before[(t, k) := v]
      case Otherwise => before
  }

  lemma {:induction false} AppliedTwice(values: Values, acts: seq<Act>, more: seq<Act>)
    ensures Applied(Applied(values, acts), more) == Applied(values, acts + more)
  {
    if more == [] {
      assert acts + more == acts;
    } else {
      var n := |more| - 1;
      AppliedTwice(values, acts, more[..n]);
      assert (acts + more)[..|acts| + n] == acts + more[..n];
    }
  }

  /** Nobody but its own destructor sets a value of the exiting thread. */
  ghost predicate SetsBy(acts: seq<Act>, me: Thread, own: bool) {
    own || forall i :: 0 <= i < |acts| && acts[i].SetValue? ==> acts[i].t != me
  }

  lemma {:induction false} OwnValuesKept(values: Values, acts: seq<Act>, me: Thread, k: Key)
    requires SetsBy(acts, me, false)
    ensures ValueOf(Applied(values, acts), (me, k)) == ValueOf(values, (me, k))
  {
    if acts != [] {
      OwnValuesKept(values, acts[..|acts| - 1], me, k);
    }
  }

  lemma PassedDestroy(w: World, ahead: Columns, w': World, ahead': Columns, a: Assoc, me: Thread)
    requires Lost(w, ahead, w', ahead', {a}) && me in w.columns && me in ahead
    ensures Passed(w.columns[me], ahead[me], w'.columns[me], ahead'[me], {a}, false)
  {
  }

  method SomeDestroy(a: Assoc, ghost me: Thread, r: Registry, ghost w: World)
    returns (r': Registry, ghost w': World, ghost gone: set<Assoc>)
    requires Known(r, w) && Valid(w) && me in r.threads && a in r.assocs
    modifies r.threads`keys, r.threads`nextAssoc, r.keys`threads
    modifies r.assocs`nextKey, r.assocs`prevKey, r.assocs`nextThread, r.assocs`prevThread
    ensures Known(r', w') && Valid(w') && me in r'.threads && gone !! r'.assocs
    ensures Passed(w.columns[me], old(Ahead(w.columns[me], me.nextAssoc)),
                   w'.columns[me], Ahead(w'.columns[me], me.nextAssoc), gone, false)
    ensures r'.threads == r.threads && r'.keys == r.keys && r'.assocs <= r.assocs
  {
    ghost var ahead := ToProcess(w);
    assert Placed(w.columns, w.rows, a);
    w' := Destroy(w, a);
    r', gone := r.(assocs := r.assocs - {a}), {a};
    PassedDestroy(w, ahead, w', ToProcess(w'), a, me);
  }

  method SomeKeyDelete(k: Key, ghost me: Thread, r: Registry, ghost w: World)
    returns (r': Registry, ghost w': World, ghost gone: set<Assoc>)
    requires Known(r, w) && Valid(w) && me in r.threads && k in r.keys
    modifies r.threads`keys, r.threads`nextAssoc, r.keys`threads
    modifies r.assocs`nextKey, r.assocs`prevKey, r.assocs`nextThread, r.assocs`prevThread
    ensures Known(r', w') && Valid(w') && me in r'.threads && gone !! r'.assocs
    ensures Passed(w.columns[me], old(Ahead(w.columns[me], me.nextAssoc)),
                   w'.columns[me], Ahead(w'.columns[me], me.nextAssoc), gone, false)
    ensures r'.threads == r.threads && r'.keys <= r.keys && r'.assocs <= r.assocs
  {
    gone := Elements(w.rows[k]);
    ghost var ahead := ToProcess(w);
    RowMembers(w, k);
    w' := KeyDelete(w, k);
    PassedKeyDelete(w, ahead, w', ToProcess(w'), k, me);
    r' := Registry(r.threads, r.keys - {k}, set a | a in r.assocs && a.key != k);
  }

  lemma RowMembers(w: World, k: Key)
    requires Shape(w.columns, w.rows, w.live) && k in w.rows
    ensures w.live - Elements(w.rows[k]) == set a | a in w.live && a.key != k
  {
    forall a | a in w.live ensures a in Elements(w.rows[k]) <==> a.key == k {
      assert Placed(w.columns, w.rows, a);
    }
  }

  lemma PassedKeyDelete(w: World, ahead: Columns, w': World, ahead': Columns, k: Key, me: Thread)
    requires k in w.rows && WithoutKey(w, ahead, w', ahead', k) && me in w.columns && me in ahead
    ensures Passed(w.columns[me], ahead[me], w'.columns[me], ahead'[me], Elements(w.rows[k]), false)
  {
  }

  method SomeSet(slots: Slots, t: Thread, k: Key, v: nat, own: bool, ghost me: Thread, r: Registry, ghost w: World)
    returns (r': Registry, ghost w': World, ghost act: Act)
    requires Known(r, w) && Valid(w) && me in r.threads && t in r.threads && k in r.keys && (t == me ==> own)
    modifies slots`values, r.threads`keys, r.keys`threads, r.assocs`prevKey, r.assocs`prevThread
    ensures slots.values == Applied(old(slots.values), [act]) && SetsBy([act], me, own)
    ensures Known(r', w') && Valid(w') && me in r'.threads
    ensures Passed(w.columns[me], old(Ahead(w.columns[me], me.nextAssoc)),
                   w'.columns[me], Ahead(w'.columns[me], me.nextAssoc), {}, own)
    ensures r'.threads == r.threads && r'.keys == r.keys && r.assocs <= r'.assocs && fresh(r'.assocs - r.assocs)
  {
    var noMemory: bool, noSlot: bool := *, *;
    var status, assoc;
    status, w', assoc := SetSpecific(w, slots, t, k, v, noMemory, noSlot);
    PassedSet(w, w', assoc, me, me.nextAssoc, own);
    act := if status == Success then SetValue(t, k, v) else Otherwise;
    assert [act][..0] == [];
    r' := if assoc == null then r else r.(assocs := r.assocs + {assoc});
  }

  lemma PassedSet(w: World, w': World, a: Assoc?, me: Thread, c: Assoc?, own: bool)
    requires Shape(w.columns, w.rows, w.live) && me in w.columns && (c == null || c in w.columns[me])
    requires a == null ==> w' == w
    requires a != null ==> a.thread in w.columns && a.key in w.rows && a !in w.live && w' == Added(w, a)
    requires a != null && a.thread == me ==> own
    ensures Passed(w.columns[me], Ahead(w.columns[me], c), w'.columns[me], Ahead(w'.columns[me], c), {}, own)
  {
    PassedNothing(w.columns[me], Ahead(w.columns[me], c));
    if a != null && a.thread == me {
      NotListed(w, a, me);
      AheadAdded(w.columns[me], a, c);
    }
  }

  lemma NotListed(w: World, a: Assoc, t: Thread)
    requires Shape(w.columns, w.rows, w.live) && a !in w.live && t in w.columns
    ensures a !in w.columns[t]
  {
  }

  /** Another thread's own exit routine starts a pass or goes on to its next association. */
  method SomeCursorMove(t: Thread, restart: bool, ghost me: Thread, ghost r: Registry, ghost w: World)
    requires Known(r, w) && Valid(w) && me in r.threads && t in r.threads && t != me
    modifies t`nextAssoc
    ensures Valid(w)
  {
    var next := t.keys;
    if !restart {
      next := t.nextAssoc;
      if next != null {
        next := next.nextKey;
      }
    }
    assert next == null || next in w.columns[t];
    SetCursor(t, next, w);
  }

  method SetCursor(t: Thread, next: Assoc?, ghost w: World)
    requires Valid(w) && t in w.columns && (next == null || next in w.columns[t])
    modifies t`nextAssoc
    ensures Valid(w) && t.nextAssoc == next
  {
    t.nextAssoc := next;
    assert Cursors(w.columns);
  }

  /** One step of somebody: of another thread, or with own set of the thread's own destructor. */
  method SomeStep(slots: Slots, own: bool, me: Thread, r: Registry, ghost w: World)
    returns (r': Registry, ghost w': World, ghost gone: set<Assoc>, ghost act: Act)
    requires Known(r, w) && Valid(w) && me in r.threads
    modifies slots, r.threads, r.keys, r.assocs
    ensures Known(r', w') && Valid(w') && me in r'.threads && gone !! r'.assocs
    ensures Passed(w.columns[me], old(Ahead(w.columns[me], me.nextAssoc)),
                   w'.columns[me], Ahead(w'.columns[me], me.nextAssoc), gone, own)
    ensures r'.threads == r.threads && r'.keys <= r.keys && forall a :: a in r'.assocs ==> a in r.assocs || fresh(a)
    ensures slots.values == Applied(old(slots.values), [act]) && SetsBy([act], me, own)
  {
    var choice: nat, t: Thread?, k: Key?, a: Assoc?, v: nat, flag: bool := *, *, *, *, *, *;
    r', w', gone, act := r, w, {}, Otherwise;
    PassedNothing(w.columns[me], Ahead(w.columns[me], me.nextAssoc));
    assert [act][..0] == [];
    if choice == 0 {
      if a != null && a in r.assocs {
        r', w', gone := SomeDestroy(a, me, r, w);
      }
    } else if choice == 1 {
      if k != null && k in r.keys {
        r', w', gone := SomeKeyDelete(k, me, r, w);
      }
    } else if choice == 2 {
      if t != null && k != null && t in r.threads && k in r.keys && (t == me ==> own) {
        r', w', act := SomeSet(slots, t, k, v, own, me, r, w);
      }
    } else if t != null && t in r.threads && t != me {
      SomeCursorMove(t, flag, me, r, w);
    }
  }

  /** Any finite number of such steps. */
  method SomeSteps(slots: Slots, own: bool, me: Thread, r: Registry, ghost w: World, steps: nat)
    returns (r': Registry, ghost w': World, ghost gone: set<Assoc>, ghost acts: seq<Act>)
    requires Known(r, w) && Valid(w) && me in r.threads
    modifies slots, r.threads, r.keys, r.assocs
    ensures Known(r', w') && Valid(w') && me in r'.threads && gone !! r'.assocs
    ensures Passed(w.columns[me], old(Ahead(w.columns[me], me.nextAssoc)),
                   w'.columns[me], Ahead(w'.columns[me], me.nextAssoc), gone, own)
    ensures r'.threads == r.threads && r'.keys <= r.keys && forall a :: a in r'.assocs ==> a in r.assocs || fresh(a)
    ensures slots.values == Applied(old(slots.values), acts) && SetsBy(acts, me, own)
    ensures acts == [] ==> w' == w && me.nextAssoc == old(me.nextAssoc)
    ensures steps == 0 ==> acts == []
    decreases steps
  {
    if steps == 0 {
      r', w', gone, acts := r, w, {}, [];
      PassedNothing(w.columns[me], Ahead(w.columns[me], me.nextAssoc));
    } else {
      ghost var ahead := Ahead(w.columns[me], me.nextAssoc);
      ghost var more, act;
      r', w', gone, act := SomeStep(slots, own, me, r, w);
      ghost var l', ahead' := w'.columns[me], Ahead(w'.columns[me], me.nextAssoc);
      r', w', more, acts := SomeSteps(slots, own, me, r', w', steps - 1);
      PassedTwice(w.columns[me], ahead, l', ahead', w'.columns[me], Ahead(w'.columns[me], me.nextAssoc),
                  gone, more, own);
      AppliedTwice(old(slots.values), [act], acts);
      gone, acts := gone + more, [act] + acts;
    }
  }

  /** Whatever the others, or with own the thread's own destructor, do meanwhile: nothing if alone is set. */
  method Meanwhile(slots: Slots, alone: bool, own: bool, me: Thread, r: Registry, ghost w: World)
    returns (r': Registry, ghost w': World, ghost gone: set<Assoc>, ghost acts: seq<Act>)
    requires Known(r, w) && Valid(w) && me in r.threads
    modifies slots, r.threads, r.keys, r.assocs
    ensures Known(r', w') && Valid(w') && me in r'.threads && gone !! r'.assocs
    ensures Passed(w.columns[me], old(Ahead(w.columns[me], me.nextAssoc)),
                   w'.columns[me], Ahead(w'.columns[me], me.nextAssoc), gone, own)
    ensures slots.values == Applied(old(slots.values), acts) && SetsBy(acts, me, own)
    ensures acts == [] ==> w' == w && me.nextAssoc == old(me.nextAssoc)
    ensures alone ==> acts == []
    ensures r'.threads == r.threads && r'.keys <= r.keys && forall a :: a in r'.assocs ==> a in r.assocs || fresh(a)
  {
    var steps: nat := *;
    if alone {
      steps := 0;
    }
    r', w', gone, acts := SomeSteps(slots, own, me, r, w, steps);
  }

  // ----- one pass

  /** An association taken up in a pass, the thread's value for its key, and whether the destructor ran. */
  datatype Visit = Visit(assoc: Assoc, pass: nat, value: nat, ran: bool)

  /** A destructor gets a non-null value, and only in the first passes. */
  ghost predicate Proper(v: Visit) {
    v.ran <==> v.value != 0 && v.pass <= PTHREAD_DESTRUCTOR_ITERATIONS
  }

  /** The calls of destructors that the exiting thread has made: for which association, how often. */
  class Destructors {
    ghost var calls: multiset<Assoc>
  }

  ghost function Called(calls: multiset<Assoc>, v: Visit): multiset<Assoc> {
    if v.ran then calls + multiset{v.assoc} else calls
  }

  /** The calls, with those that a log tells of. */
  ghost function Calls(before: multiset<Assoc>, log: seq<Visit>): multiset<Assoc> {
    if log == [] then before else Called(Calls(before, log[..|log| - 1]), log[|log| - 1])
  }

  lemma CallsMore(before: multiset<Assoc>, log: seq<Visit>, v: Visit)
    ensures Calls(before, log + [v]) == Called(Calls(before, log), v)
  {
    assert (log + [v])[..|log|] == log;
  }

  lemma {:induction false} CallsAppend(before: multiset<Assoc>, log: seq<Visit>, more: seq<Visit>)
    ensures Calls(before, log + more) == Calls(Calls(before, log), more)
  {
    if more == [] {
      assert log + more == log;
    } else {
      var n := |more| - 1;
      assert log + more == log + more[..n] + [more[n]];
      CallsAppend(before, log, more[..n]);
      CallsMore(before, log + more[..n], more[n]);
    }
  }

  ghost predicate Visited(log: seq<Visit>, a: Assoc) {
    exists i :: 0 <= i < |log| && log[i].assoc == a
  }

  /** In the middle of a pass over the list start: nothing in the log is taken up again, everything
      else of start is still to come or gone, and until a destructor has run the whole list is. */
  ghost predicate InPass(
      start: seq<Assoc>, l: seq<Assoc>, ahead: seq<Assoc>, assocs: set<Assoc>, log: seq<Visit>, pass: nat, ran: nat)
  {
    && (ran == 0 ==> l == ahead && forall i :: 0 <= i < |log| ==> !log[i].ran)
    && (ran > 0 ==> pass <= PTHREAD_DESTRUCTOR_ITERATIONS)
    && (forall i :: 0 <= i < |log| ==> log[i].pass == pass && Proper(log[i]) && log[i].assoc !in ahead)
    && (forall i, j :: 0 <= i < j < |log| ==> log[i].assoc != log[j].assoc)
    && (forall a :: a in start ==> a in ahead || a !in assocs || Visited(log, a))
  }

  lemma InPassSteps(
      start: seq<Assoc>, l: seq<Assoc>, ahead: seq<Assoc>, assocs: set<Assoc>, log: seq<Visit>, pass: nat, ran: nat,
      l': seq<Assoc>, ahead': seq<Assoc>, assocs': set<Assoc>, gone: set<Assoc>, own: bool)
    requires InPass(start, l, ahead, assocs, log, pass, ran) && Passed(l, ahead, l', ahead', gone, own)
    requires (own ==> ran > 0) && gone !! assocs' && forall a :: a in start && a in assocs' ==> a in assocs
    ensures InPass(start, l', ahead', assocs', log, pass, ran) && |ahead'| <= |ahead|
  {
    DropMembers(ahead, gone);
  }

  /** The destructor is about to run for the first association ahead. */
  lemma InPassRun(
      start: seq<Assoc>, l: seq<Assoc>, ahead: seq<Assoc>, assocs: set<Assoc>, log: seq<Visit>, v: Visit, ran: nat)
    requires InPass(start, l, ahead, assocs, log, v.pass, ran) && Proper(v) && v.ran
    requires ahead != [] && v.assoc == ahead[0] && Distinct(ahead)
    ensures InPass(start, l, ahead[1..], assocs, log + [v], v.pass, ran + 1)
  {
    assert v.assoc !in ahead[1..];
    VisitedMore(start, ahead, assocs, log, v);
  }

  /** The first association ahead has been destroyed. */
  lemma InPassDestroy(
      start: seq<Assoc>, l: seq<Assoc>, ahead: seq<Assoc>, assocs: set<Assoc>, log: seq<Visit>, v: Visit, ran: nat)
    requires InPass(start, l, ahead, assocs, log, v.pass, ran) && Proper(v) && !v.ran
    requires ahead != [] && v.assoc == ahead[0] && Distinct(ahead)
    ensures Drop(ahead[1..], {v.assoc}) == ahead[1..]
    ensures InPass(start, Drop(l, {v.assoc}), ahead[1..], assocs - {v.assoc}, log + [v], v.pass, ran)
  {
    assert v.assoc !in ahead[1..];
    VisitedMore(start, ahead, assocs, log, v);
    DropNone(ahead[1..], {v.assoc});
  }

  lemma VisitedMore(start: seq<Assoc>, ahead: seq<Assoc>, assocs: set<Assoc>, log: seq<Visit>, v: Visit)
    requires ahead != [] && v.assoc == ahead[0]
    requires forall a :: a in start ==> a in ahead || a !in assocs || Visited(log, a)
    ensures forall a :: a in start ==> a in ahead[1..] || a !in assocs || Visited(log + [v], a)
  {
    forall a | a in start && a in assocs && a !in ahead[1..] ensures Visited(log + [v], a) {
      if a == v.assoc {
        assert (log + [v])[|log|].assoc == a;
      } else {
        assert Visited(log, a);
        var i :| 0 <= i < |log| && log[i].assoc == a;
        assert (log + [v])[i].assoc == a;
      }
    }
  }

  /** TlsGetValue and TlsSetValue(NULL) on a key whose association is being processed. */
  method Clear(slots: Slots, t: Thread, k: Key, ghost w: World) returns (value: nat)
    requires Valid(w)
    modifies slots`values
    ensures Valid(w) && value == old(slots.Get(t, k)) && slots.values == old(slots.values)[(t, k) := 0]
  {
    value := slots.Get(t, k);
    slots.Set(t, k, 0);
  }

  /** sp->nextAssoc moves on before anything else happens to the association. */
  method Advance(me: Thread, assoc: Assoc, ghost w: World)
    requires Valid(w) && me in w.columns && assoc == me.nextAssoc
    modifies me`nextAssoc
    ensures Valid(w)
    ensures assoc in w.live && assoc.thread == me && Distinct(old(Ahead(w.columns[me], me.nextAssoc)))
    ensures old(Ahead(w.columns[me], me.nextAssoc)) == [assoc] + Ahead(w.columns[me], me.nextAssoc)
  {
    ghost var l := w.columns[me];
    ghost var i :| 0 <= i < |l| && l[i] == assoc;
    var next := assoc.nextKey;
    assert next == At(l, i + 1);
    AheadNext(l, i);
    SetCursor(me, next, w);
  }

  lemma AheadNext(l: seq<Assoc>, i: nat)
    requires i < |l| && Distinct(l)
    ensures Ahead(l, l[i]) == [l[i]] + Ahead(l, At(l, i + 1)) && Distinct(Ahead(l, l[i]))
    ensures At(l, i + 1) == null || At(l, i + 1) in l
  {
    AheadAt(l, i);
    AheadAt(l, i + 1);
    assert At(l, i) == l[i];
  }

  /** The association is taken off its lists when its value is null or the passes are used up. */
  method Finish(me: Thread, assoc: Assoc, r: Registry, ghost w: World, ghost start: seq<Assoc>,
                ghost ahead: seq<Assoc>, ghost log: seq<Visit>, ghost v: Visit, ghost ran: nat)
    returns (r': Registry, ghost w': World)
    requires Known(r, w) && Valid(w) && me in r.threads && assoc in w.live && v.assoc == assoc
    requires Proper(v) && !v.ran && Distinct(ahead)
    requires ahead == [assoc] + Ahead(w.columns[me], me.nextAssoc)
    requires InPass(start, w.columns[me], ahead, r.assocs, log, v.pass, ran)
    modifies r.threads`keys, r.threads`nextAssoc, r.keys`threads
    modifies r.assocs`nextKey, r.assocs`prevKey, r.assocs`nextThread, r.assocs`prevThread
    ensures Known(r', w') && Valid(w') && me in r'.threads && r' == r.(assocs := r.assocs - {assoc})
    ensures InPass(start, w'.columns[me], Ahead(w'.columns[me], me.nextAssoc), r'.assocs, log + [v], v.pass, ran)
    ensures Ahead(w'.columns[me], me.nextAssoc) == ahead[1..] && w'.columns[me] == Drop(w.columns[me], {assoc})
  {
    ghost var before, l := ToProcess(w), w.columns[me];
    InPassDestroy(start, l, ahead, r.assocs, log, v, ran);
    assert ahead[1..] == before[me];
    assert Placed(w.columns, w.rows, assoc);
    w' := Destroy(w, assoc);
    PassedDestroy(w, before, w', ToProcess(w'), assoc, me);
    r' := r.(assocs := r.assocs - {assoc});
  }

  /** The destructor runs, with the thread's value cleared and both locks released. */
  method RunDestructor(slots: Slots, alone: bool, d: Destructors, me: Thread, r: Registry, ghost w: World,
                       ghost start: seq<Assoc>, ghost ahead: seq<Assoc>, ghost log: seq<Visit>, ghost v: Visit,
                       ran: nat)
    returns (r': Registry, ghost w': World, ghost acts: seq<Act>)
    requires Known(r, w) && Valid(w) && me in r.threads && Proper(v) && v.ran && Distinct(ahead)
    requires slots.Get(me, v.assoc.key) == 0
    requires ahead == [v.assoc] + Ahead(w.columns[me], me.nextAssoc)
    requires InPass(start, w.columns[me], ahead, r.assocs, log, v.pass, ran)
    modifies d, slots, r.threads, r.keys, r.assocs
    ensures d.calls == Called(old(d.calls), v)
    ensures Known(r', w') && Valid(w') && me in r'.threads
    ensures InPass(start, w'.columns[me], Ahead(w'.columns[me], me.nextAssoc), r'.assocs, log + [v], v.pass, ran + 1)
    ensures |Ahead(w'.columns[me], me.nextAssoc)| < |ahead|
    ensures alone ==> acts == []
    ensures r'.threads == r.threads && r'.keys <= r.keys && forall a :: a in r'.assocs ==> a in r.assocs || fresh(a)
    ensures slots.values == Applied(old(slots.values), acts)
    ensures acts == [] ==> w' == w && Ahead(w'.columns[me], me.nextAssoc) == ahead[1..]
  {
    ghost var l, rest := w.columns[me], Ahead(w.columns[me], me.nextAssoc);
    assert rest == ahead[1..];
    InPassRun(start, l, ahead, r.assocs, log, v, ran);
    d.calls := Called(d.calls, v);
    ghost var gone;
    r', w', gone, acts := Meanwhile(slots, alone, true, me, r, w);
    InPassSteps(start, l, rest, r.assocs, log + [v], v.pass, ran + 1,
                w'.columns[me], Ahead(w'.columns[me], me.nextAssoc), r'.assocs, gone, true);
  }

  /** The processing of the association the two locks have been got for: its destructor runs when the
      thread has a value for the key, in the first passes; otherwise the association is destroyed.  The
      value is cleared, and no other changes but by what the destructor and the others do meanwhile. */
  method Process(slots: Slots, alone: bool, d: Destructors, me: Thread, assoc: Assoc, pass: nat, r: Registry,
                 ghost w: World, ghost start: seq<Assoc>, ghost log: seq<Visit>, ran: nat)
    returns (r': Registry, ghost w': World, ghost v: Visit, ran': nat, ghost acts: seq<Act>)
    requires Amid(me, r, w, start, log, pass, ran) && assoc == me.nextAssoc
    modifies d, slots, r.threads, r.keys, r.assocs
    ensures Amid(me, r', w', start, log + [v], pass, ran')
    ensures var value := old(slots.Get(me, assoc.key));
            v == Visit(assoc, pass, value, value != 0 && pass <= PTHREAD_DESTRUCTOR_ITERATIONS)
    ensures d.calls == Called(old(d.calls), v)
    ensures ran' == ran + (if v.ran then 1 else 0) && (!v.ran ==> assoc !in r'.assocs)
    ensures slots.values == Applied(old(slots.values)[(me, assoc.key) := 0], acts) && (!v.ran ==> acts == [])
    ensures old(Ahead(w.columns[me], me.nextAssoc)) != [] && old(Ahead(w.columns[me], me.nextAssoc))[0] == assoc
    ensures |Ahead(w'.columns[me], me.nextAssoc)| < old(|Ahead(w.columns[me], me.nextAssoc)|)
    ensures acts == [] ==> Ahead(w'.columns[me], me.nextAssoc) == old(Ahead(w.columns[me], me.nextAssoc))[1..]
    ensures acts == [] ==> w'.columns[me] == if v.ran then w.columns[me] else Drop(w.columns[me], {assoc})
    ensures alone ==> acts == []
    ensures r'.threads == r.threads && r'.keys <= r.keys && forall a :: a in r'.assocs ==> a in r.assocs || fresh(a)
  {
    ghost var l, ahead := w.columns[me], Ahead(w.columns[me], me.nextAssoc);
    Advance(me, assoc, w);
    var value := Clear(slots, me, assoc.key, w);
    if value != 0 && pass <= PTHREAD_DESTRUCTOR_ITERATIONS {
      v := Visit(assoc, pass, value, true);
      r', w', acts := RunDestructor(slots, alone, d, me, r, w, start, ahead, log, v, ran);
      ran' := ran + 1;
    } else {
      v := Visit(assoc, pass, value, false);
      r', w' := Finish(me, assoc, r, w, start, ahead, log, v, ran);
      ran', acts := ran, [];
    }
  }

  /** The state of the exiting thread me within a pass. */
  ghost predicate Amid(
      me: Thread, r: Registry, w: World, start: seq<Assoc>, log: seq<Visit>, pass: nat, ran: nat)
    reads w.columns.Keys`keys, w.columns.Keys`nextAssoc, w.rows.Keys`threads, w.live
  {
    && Known(r, w) && Valid(w) && me in w.columns
    && InPass(start, w.columns[me], Ahead(w.columns[me], me.nextAssoc), r.assocs, log, pass, ran)
  }

  /** The thread gets hold of the next association.  The others may do anything before the two locks
      are got, and again each time the key's lock is found taken and the thread has to let go of its
      own. */
  method Acquire(slots: Slots, alone: bool, me: Thread, ghost pass: nat, r: Registry, ghost w: World,
                ghost start: seq<Assoc>, ghost log: seq<Visit>, ghost ran: nat)
    returns (assoc: Assoc?, r': Registry, ghost w': World, ghost acts: seq<Act>)
    requires Amid(me, r, w, start, log, pass, ran)
    modifies slots, r.threads, r.keys, r.assocs
    ensures Amid(me, r', w', start, log, pass, ran)
    ensures |Ahead(w'.columns[me], me.nextAssoc)| <= old(|Ahead(w.columns[me], me.nextAssoc)|)
    ensures assoc == me.nextAssoc
    ensures assoc == null ==> Ahead(w'.columns[me], me.nextAssoc) == []
    ensures slots.values == Applied(old(slots.values), acts) && SetsBy(acts, me, false)
    ensures acts == [] ==> w' == w && me.nextAssoc == old(me.nextAssoc)
    ensures alone ==> acts == []
    ensures r'.threads == r.threads && r'.keys <= r.keys && forall a :: a in r'.assocs ==> a in r.assocs || fresh(a)
  {
    ghost var l, ahead := w.columns[me], Ahead(w.columns[me], me.nextAssoc);
    ghost var gone;
    r', w', gone, acts := Meanwhile(slots, alone, false, me, r, w);
    InPassSteps(start, l, ahead, r.assocs, log, pass, ran,
                w'.columns[me], Ahead(w'.columns[me], me.nextAssoc), r'.assocs, gone, false);
    AheadMembers(w'.columns[me], null);
    assoc := me.nextAssoc;
  }

  // ----- a pass in which nobody else does anything

  ghost function KeysOf(s: seq<Assoc>): set<Key> {
    set a | a in s :: a.key
  }

  /** The values are as before, but the thread's for these keys are cleared. */
  ghost predicate Cleared(me: Thread, keys: set<Key>, before: Values, values: Values) {
    forall p :: p in before.Keys + values.Keys ==>
      ValueOf(values, p) == if p.0 == me && p.1 in keys then 0 else ValueOf(before, p)
  }

  ghost predicate OneKeyEach(s: seq<Assoc>) {
    forall i, j :: 0 <= i < j < |s| ==> s[i].key != s[j].key
  }

  /** A pass over start that has taken up its first associations in order, each with the value the
      thread had for its key before the pass; nothing has come to the list. */
  ghost predicate InOrder(
      me: Thread, start: seq<Assoc>, before: Values, values: Values, log: seq<Visit>, ahead: seq<Assoc>, l: seq<Assoc>)
  {
    && |log| <= |start| && ahead == start[|log|..]
    && (forall i :: 0 <= i < |log| ==> log[i].assoc == start[i] && log[i].value == ValueOf(before, (me, start[i].key)))
    && Cleared(me, KeysOf(start[..|log|]), before, values)
    && (forall a :: a in l ==> a in start)
  }

  lemma InOrderTurn(me: Thread, start: seq<Assoc>, before: Values, values: Values, log: seq<Visit>,
                    ahead: seq<Assoc>, l: seq<Assoc>, v: Visit, l': seq<Assoc>)
    requires InOrder(me, start, before, values, log, ahead, l) && OneKeyEach(start)
    requires ahead != [] && v.assoc == ahead[0] && v.value == ValueOf(values, (me, v.assoc.key))
    requires forall a :: a in l' ==> a in l
    ensures InOrder(me, start, before, values[(me, v.assoc.key) := 0], log + [v], ahead[1..], l')
  {
    var n := |log|;
    assert v.assoc == start[n];
    assert v.assoc.key !in KeysOf(start[..n]) by {
      assert forall i :: 0 <= i < n ==> start[i].key != start[n].key;
    }
    assert v.value == ValueOf(before, (me, start[n].key));
    assert start[..n + 1] == start[..n] + [start[n]];
    assert KeysOf(start[..n + 1]) == KeysOf(start[..n]) + {start[n].key};
    assert start[n..][1..] == start[n + 1..];
  }

  lemma ColumnKeys(w: World, t: Thread)
    requires Shape(w.columns, w.rows, w.live) && t in w.columns
    ensures OneKeyEach(w.columns[t])
  {
  }

  /** One turn of the inner loop. */
  method Turn(slots: Slots, alone: bool, d: Destructors, me: Thread, assoc: Assoc, pass: nat, r: Registry,
              ghost w: World, ghost start: seq<Assoc>, ghost log: seq<Visit>, ran: nat)
    returns (next: Assoc?, r': Registry, ghost w': World, ghost v: Visit, ran': nat, ghost acts: seq<Act>)
    requires Amid(me, r, w, start, log, pass, ran) && assoc == me.nextAssoc
    modifies d, slots, r.threads, r.keys, r.assocs
    ensures d.calls == Called(old(d.calls), v)
    ensures Amid(me, r', w', start, log + [v], pass, ran') && next == me.nextAssoc
    ensures |Ahead(w'.columns[me], me.nextAssoc)| < old(|Ahead(w.columns[me], me.nextAssoc)|)
    ensures next == null ==> Ahead(w'.columns[me], me.nextAssoc) == []
    ensures v.assoc == assoc && v.value == old(slots.Get(me, assoc.key))
    ensures slots.values == Applied(old(slots.values)[(me, assoc.key) := 0], acts)
    ensures old(Ahead(w.columns[me], me.nextAssoc)) != [] && old(Ahead(w.columns[me], me.nextAssoc))[0] == assoc
    ensures acts == [] ==> Ahead(w'.columns[me], me.nextAssoc) == old(Ahead(w.columns[me], me.nextAssoc))[1..]
    ensures acts == [] ==> forall a :: a in w'.columns[me] ==> a in w.columns[me]
    ensures alone ==> acts == []
    ensures r'.threads == r.threads && r'.keys <= r.keys && forall a :: a in r'.assocs ==> a in r.assocs || fresh(a)
  {
    ghost var more;
    r', w', v, ran', acts := Process(slots, alone, d, me, assoc, pass, r, w, start, log, ran);
    next, r', w', more := Acquire(slots, alone, me, pass, r', w', start, log + [v], ran');
    AppliedTwice(old(slots.values)[(me, assoc.key) := 0], acts, more);
    DropMembers(w.columns[me], {assoc});
    acts := acts + more;
  }

  /** The turn with the log, and the order if nobody has done anything. */
  method LoggedTurn(slots: Slots, alone: bool, d: Destructors, me: Thread, assoc: Assoc, pass: nat, r: Registry,
                    ghost w: World, ghost start: seq<Assoc>, ghost log: seq<Visit>, ran: nat,
                    ghost calls: multiset<Assoc>, ghost before: Values, ghost acts: seq<Act>)
    returns (next: Assoc?, r': Registry, ghost w': World, ghost log': seq<Visit>, ran': nat, ghost acts': seq<Act>)
    requires Amid(me, r, w, start, log, pass, ran) && assoc == me.nextAssoc && OneKeyEach(start)
    requires d.calls == Calls(calls, log)
    requires acts == [] ==>
      InOrder(me, start, before, slots.values, log, Ahead(w.columns[me], me.nextAssoc), w.columns[me])
    modifies d, slots, r.threads, r.keys, r.assocs
    ensures Amid(me, r', w', start, log', pass, ran') && next == me.nextAssoc
    ensures d.calls == Calls(calls, log')
    ensures |Ahead(w'.columns[me], me.nextAssoc)| < old(|Ahead(w.columns[me], me.nextAssoc)|)
    ensures next == null ==> Ahead(w'.columns[me], me.nextAssoc) == []
    ensures acts' == [] ==>
      InOrder(me, start, before, slots.values, log', Ahead(w'.columns[me], me.nextAssoc), w'.columns[me])
    ensures alone && acts == [] ==> acts' == []
    ensures r'.threads == r.threads && r'.keys <= r.keys && forall a :: a in r'.assocs ==> a in r.assocs || fresh(a)
  {
    ghost var ahead, values := Ahead(w.columns[me], me.nextAssoc), slots.values;
    ghost var v, more;
    next, r', w', v, ran', more := Turn(slots, alone, d, me, assoc, pass, r, w, start, log, ran);
    CallsMore(calls, log, v);
    if acts + more == [] {
      InOrderTurn(me, start, before, values, log, ahead, w.columns[me], v, w'.columns[me]);
    }
    log', acts' := log + [v], acts + more;
  }

  method StartPass(slots: Slots, alone: bool, me: Thread, ghost pass: nat, r: Registry, ghost w: World)
    returns (assoc: Assoc?, r': Registry, ghost w': World, ghost acts: seq<Act>)
    requires Known(r, w) && Valid(w) && me in r.threads
    modifies slots, r.threads, r.keys, r.assocs
    ensures Amid(me, r', w', w.columns[me], [], pass, 0) && assoc == me.nextAssoc
    ensures assoc == null ==> Ahead(w'.columns[me], me.nextAssoc) == []
    ensures acts == [] ==> InOrder(me, w.columns[me], old(slots.values), slots.values, [],
                                   Ahead(w'.columns[me], me.nextAssoc), w'.columns[me])
    ensures alone ==> acts == []
    ensures r'.threads == r.threads && r'.keys <= r.keys && forall a :: a in r'.assocs ==> a in r.assocs || fresh(a)
  {
    SetCursor(me, me.keys, w);
    AheadAt(w.columns[me], 0);
    assoc, r', w', acts := Acquire(slots, alone, me, pass, r, w, w.columns[me], [], 0);
  }

  /** One pass: every association that was on the list at its start is taken up once or deleted by
      somebody else, nothing is taken up twice, and a pass in which no destructor ran leaves the
      list empty. */
  method Pass(slots: Slots, alone: bool, d: Destructors, me: Thread, pass: nat, r: Registry, ghost w: World)
    returns (r': Registry, ghost w': World, ghost log: seq<Visit>, ran: nat, ghost acts: seq<Act>)
    requires Known(r, w) && Valid(w) && me in r.threads
    modifies d, slots, r.threads, r.keys, r.assocs
    ensures Known(r', w') && Valid(w') && me in r'.threads
    ensures d.calls == Calls(old(d.calls), log)
    ensures InPass(w.columns[me], w'.columns[me], [], r'.assocs, log, pass, ran)
    ensures acts == [] ==> InOrder(me, w.columns[me], old(slots.values), slots.values, log, [], w'.columns[me])
    ensures alone ==> acts == []
    ensures r'.threads == r.threads && r'.keys <= r.keys && forall a :: a in r'.assocs ==> a in r.assocs || fresh(a)
  {
    ghost var start := w.columns[me];
    ColumnKeys(w, me);
    log, ran := [], 0;
    var assoc;
    assoc, r', w', acts := StartPass(slots, alone, me, pass, r, w);
    while assoc != null
      invariant Amid(me, r', w', start, log, pass, ran) && assoc == me.nextAssoc
      invariant d.calls == Calls(old(d.calls), log)
      invariant assoc == null ==> Ahead(w'.columns[me], me.nextAssoc) == []
      invariant alone ==> acts == []
      invariant acts == [] ==> InOrder(me, start, old(slots.values), slots.values, log,
                                       Ahead(w'.columns[me], me.nextAssoc), w'.columns[me])
      invariant r'.threads == r.threads && r'.keys <= r.keys && forall a :: a in r'.assocs ==> a in r.assocs || fresh(a)
      decreases |Ahead(w'.columns[me], me.nextAssoc)|
    {
      assoc, r', w', log, ran, acts := LoggedTurn(slots, alone, d, me, assoc, pass, r', w', start, log, ran,
                                                  old(d.calls), old(slots.values), acts);
    }
  }

  /** The log of all passes so far. */
  ghost predicate WholeLog(log: seq<Visit>, passes: nat) {
    && (forall i :: 0 <= i < |log| ==> 1 <= log[i].pass <= passes && Proper(log[i]))
    && (forall i, j :: 0 <= i < j < |log| && log[i].assoc == log[j].assoc ==> log[i].pass < log[j].pass)
  }

  lemma WholeLogMore(
      log: seq<Visit>, passes: nat, more: seq<Visit>, start: seq<Assoc>, l: seq<Assoc>, assocs: set<Assoc>, ran: nat)
    requires WholeLog(log, passes) && InPass(start, l, [], assocs, more, passes + 1, ran)
    ensures WholeLog(log + more, passes + 1)
  {
    forall i, j | 0 <= i < j < |log + more| && (log + more)[i].assoc == (log + more)[j].assoc
      ensures (log + more)[i].pass < (log + more)[j].pass
    {
    }
  }

  /** In WholeLog the passes of one association grow, so their number bounds its calls. */
  lemma {:induction false} CallsBelow(before: multiset<Assoc>, log: seq<Visit>, passes: nat, a: Assoc, bound: nat)
    requires WholeLog(log, passes)
    requires forall i :: 0 <= i < |log| && log[i].assoc == a && log[i].ran ==> log[i].pass <= bound
    ensures Calls(before, log)[a] <= before[a] + bound
  {
    if log != [] {
      var n := |log| - 1;
      var v := log[n];
      assert forall i :: 0 <= i < n ==> log[..n][i] == log[i];
      if v.assoc == a && v.ran {
        CallsBelow(before, log[..n], passes, a, v.pass - 1);
      } else {
        CallsBelow(before, log[..n], passes, a, bound);
      }
    }
  }

  lemma DestructorBound(before: multiset<Assoc>, log: seq<Visit>, passes: nat, a: Assoc)
    requires WholeLog(log, passes)
    ensures Calls(before, log)[a] <= before[a] + PTHREAD_DESTRUCTOR_ITERATIONS
  {
    CallsBelow(before, log, passes, a, PTHREAD_DESTRUCTOR_ITERATIONS);
  }

  // ----- an exit in which nobody else does anything

  /** The calls have become one more for each association of the list that the thread had a value for. */
  ghost predicate OnceEach(
      me: Thread, first: seq<Assoc>, before: Values, calls: multiset<Assoc>, calls': multiset<Assoc>)
  {
    forall a :: a in calls + calls' + multiset(first) ==>
      calls'[a] == calls[a] + if a in first && ValueOf(before, (me, a.key)) != 0 then 1 else 0
  }

  /** What an exit has done so far that nobody interfered with. */
  ghost predicate Undisturbed(me: Thread, first: seq<Assoc>, before: Values, values: Values,
                              calls: multiset<Assoc>, calls': multiset<Assoc>, l: seq<Assoc>)
  {
    && Cleared(me, KeysOf(first), before, values)
    && OnceEach(me, first, before, calls, calls')
    && (forall a :: a in l ==> a in first)
  }

  /** The first pass calls every destructor there is a value for. */
  lemma {:induction false} CallsInOrder(me: Thread, first: seq<Assoc>, before: Values, calls: multiset<Assoc>,
                                        log: seq<Visit>, a: Assoc)
    requires |log| <= |first| && Distinct(first)
    requires forall i :: 0 <= i < |log| ==> log[i].assoc == first[i] && Proper(log[i]) && log[i].pass == 1
    requires forall i :: 0 <= i < |log| ==> log[i].value == ValueOf(before, (me, first[i].key))
    ensures Calls(calls, log)[a] ==
      calls[a] + if a in first[..|log|] && ValueOf(before, (me, a.key)) != 0 then 1 else 0
  {
    if log != [] {
      var n := |log| - 1;
      CallsInOrder(me, first, before, calls, log[..n], a);
      assert first[..n + 1] == first[..n] + [first[n]];
      assert first[n] !in first[..n];
    }
  }

  lemma FirstPass(me: Thread, first: seq<Assoc>, before: Values, values: Values, calls: multiset<Assoc>,
                  log: seq<Visit>, l: seq<Assoc>)
    requires InOrder(me, first, before, values, log, [], l) && Distinct(first)
    requires forall i :: 0 <= i < |log| ==> Proper(log[i]) && log[i].pass == 1
    ensures Undisturbed(me, first, before, values, calls, Calls(calls, log), l)
  {
    assert |log| == |first| && first[..|log|] == first;
    forall a | a in calls + Calls(calls, log) + multiset(first)
      ensures Calls(calls, log)[a] == calls[a] + if a in first && ValueOf(before, (me, a.key)) != 0 then 1 else 0
    {
      CallsInOrder(me, first, before, calls, log, a);
    }
  }

  lemma {:induction false} CallsNone(calls: multiset<Assoc>, log: seq<Visit>)
    requires forall i :: 0 <= i < |log| ==> !log[i].ran
    ensures Calls(calls, log) == calls
  {
    if log != [] {
      CallsNone(calls, log[..|log| - 1]);
    }
  }

  /** A later pass finds no value any more. */
  lemma LaterPass(me: Thread, first: seq<Assoc>, before: Values, values: Values, calls: multiset<Assoc>,
                  calls': multiset<Assoc>, start: seq<Assoc>, values': Values, log: seq<Visit>, l: seq<Assoc>)
    requires Undisturbed(me, first, before, values, calls, calls', start)
    requires InOrder(me, start, values, values', log, [], l) && forall i :: 0 <= i < |log| ==> Proper(log[i])
    ensures Undisturbed(me, first, before, values', calls, Calls(calls', log), l)
  {
    forall i | 0 <= i < |log| ensures !log[i].ran {
      assert start[i] in start && start[i].key in KeysOf(first);
    }
    CallsNone(calls', log);
    assert start[..|log|] == start && KeysOf(start) <= KeysOf(first);
  }

  lemma PassDone(me: Thread, first: seq<Assoc>, before: Values, values: Values, values': Values, calls: multiset<Assoc>,
                 log: seq<Visit>, start: seq<Assoc>, more: seq<Visit>, l: seq<Assoc>, iterations: nat)
    requires iterations == 0 ==> log == [] && first == start && before == values
    requires iterations > 0 ==> Undisturbed(me, first, before, values, calls, Calls(calls, log), start)
    requires InOrder(me, start, values, values', more, [], l) && Distinct(start)
    requires forall i :: 0 <= i < |more| ==> Proper(more[i]) && more[i].pass == iterations + 1
    ensures Undisturbed(me, first, before, values', calls, Calls(calls, log + more), l)
  {
    CallsAppend(calls, log, more);
    if iterations == 0 {
      FirstPass(me, first, before, values', calls, more, l);
    } else {
      LaterPass(me, first, before, values, calls, Calls(calls, log), start, values', more, l);
    }
  }

  /** A pass that begins some time later. */
  method LatePass(slots: Slots, alone: bool, d: Destructors, me: Thread, pass: nat, r: Registry, ghost w: World)
    returns (r': Registry, ghost w': World, ghost start: seq<Assoc>, ghost log: seq<Visit>, ran: nat,
             ghost acts: seq<Act>)
    requires Known(r, w) && Valid(w) && me in r.threads
    modifies d, slots, r.threads, r.keys, r.assocs
    ensures Known(r', w') && Valid(w') && me in r'.threads
    ensures d.calls == Calls(old(d.calls), log)
    ensures InPass(start, w'.columns[me], [], r'.assocs, log, pass, ran) && Distinct(start)
    ensures acts == [] ==>
      && start == w.columns[me]
      && InOrder(me, start, old(slots.values), slots.values, log, [], w'.columns[me])
    ensures alone ==> acts == []
    ensures r'.threads == r.threads && r'.keys <= r.keys && forall a :: a in r'.assocs ==> a in r.assocs || fresh(a)
  {
    ghost var gone, more;
    r', w', gone, acts := Meanwhile(slots, alone, false, me, r, w);
    start := w'.columns[me];
    r', w', log, ran, more := Pass(slots, alone, d, me, pass, r', w');
    acts := acts + more;
  }

  method NextPass(slots: Slots, alone: bool, d: Destructors, me: Thread, iterations: nat, r: Registry, ghost w: World,
                  ghost calls: multiset<Assoc>, ghost log: seq<Visit>,
                  ghost first: seq<Assoc>, ghost before: Values, ghost acts: seq<Act>)
    returns (r': Registry, ghost w': World, ghost log': seq<Visit>, ran: nat, ghost acts': seq<Act>)
    requires Known(r, w) && Valid(w) && me in r.threads && WholeLog(log, iterations)
    requires d.calls == Calls(calls, log)
    requires iterations == 0 ==> log == [] && first == w.columns[me] && before == slots.values
    requires acts == [] && iterations > 0 ==>
      Undisturbed(me, first, before, slots.values, calls, d.calls, w.columns[me])
    modifies d, slots, r.threads, r.keys, r.assocs
    ensures Known(r', w') && Valid(w') && me in r'.threads
    ensures WholeLog(log', iterations + 1)
    ensures d.calls == Calls(calls, log')
    ensures ran == 0 ==> w'.columns[me] == []
    ensures ran > 0 ==> iterations < PTHREAD_DESTRUCTOR_ITERATIONS
    ensures acts' == [] ==> Undisturbed(me, first, before, slots.values, calls, d.calls, w'.columns[me])
    ensures alone && acts == [] ==> acts' == []
    ensures r'.threads == r.threads && r'.keys <= r.keys && forall a :: a in r'.assocs ==> a in r.assocs || fresh(a)
  {
    ghost var more, start, values, later := [], [], slots.values, [];
    r', w', start, more, ran, later := LatePass(slots, alone, d, me, iterations + 1, r, w);
    WholeLogMore(log, iterations, more, start, w'.columns[me], r'.assocs, ran);
    CallsAppend(calls, log, more);
    if acts + later == [] {
      PassDone(me, first, before, values, slots.values, calls, log, start, more, w'.columns[me], iterations);
    }
    log', acts' := log + more, acts + later;
  }

  /** ptw32_callUserDestroyRoutines, whatever the destructors and the other threads do: it ends after
      at most one more pass than PTHREAD_DESTRUCTOR_ITERATIONS with the thread's list empty.  The log
      tells of every call of a destructor, and no association has its destructor called more than
      PTHREAD_DESTRUCTOR_ITERATIONS times.  If they do nothing, the destructor of each association that
      the thread has a value for is called once, and no values are lost but the thread's own. */
  method CallUserDestroyRoutines(slots: Slots, alone: bool, d: Destructors, me: Thread, r: Registry, ghost w: World)
    returns (r': Registry, ghost w': World, ghost log: seq<Visit>, iterations: nat, ghost acts: seq<Act>)
    requires Known(r, w) && Valid(w) && me in r.threads
    modifies d, slots, r.threads, r.keys, r.assocs
    ensures Known(r', w') && Valid(w') && me in r'.threads
    ensures 1 <= iterations <= PTHREAD_DESTRUCTOR_ITERATIONS + 1
    ensures w'.columns[me] == []
    ensures WholeLog(log, iterations) && d.calls == Calls(old(d.calls), log)
    ensures forall a :: a in d.calls ==> d.calls[a] <= old(d.calls)[a] + PTHREAD_DESTRUCTOR_ITERATIONS
    ensures acts == [] ==> OnceEach(me, w.columns[me], old(slots.values), old(d.calls), d.calls)
    ensures acts == [] ==> Cleared(me, KeysOf(w.columns[me]), old(slots.values), slots.values)
    ensures alone ==> acts == []
    ensures r'.threads == r.threads && r'.keys <= r.keys && forall a :: a in r'.assocs ==> a in r.assocs || fresh(a)
  {
    r', w', log, iterations, acts := r, w, [], 0, [];
    var assocsRemaining := 1;
    while assocsRemaining != 0
      invariant Known(r', w') && Valid(w') && me in r'.threads
      invariant iterations == 0 ==> assocsRemaining != 0 && w' == w && slots.values == old(slots.values) && log == []
      invariant iterations <= PTHREAD_DESTRUCTOR_ITERATIONS + if assocsRemaining == 0 then 1 else 0
      invariant assocsRemaining == 0 ==> w'.columns[me] == []
      invariant WholeLog(log, iterations) && d.calls == Calls(old(d.calls), log)
      invariant alone ==> acts == []
      invariant acts == [] && iterations > 0 ==>
        Undisturbed(me, w.columns[me], old(slots.values), slots.values, old(d.calls), d.calls, w'.columns[me])
      invariant r'.threads == r.threads && r'.keys <= r.keys && forall a :: a in r'.assocs ==> a in r.assocs || fresh(a)
      decreases assocsRemaining != 0, PTHREAD_DESTRUCTOR_ITERATIONS - iterations
    {
      r', w', log, assocsRemaining, acts :=
        NextPass(slots, alone, d, me, iterations, r', w', old(d.calls), log,
                 w.columns[me], old(slots.values), acts);
      iterations := iterations + 1;
    }
    forall a | a in d.calls ensures d.calls[a] <= old(d.calls)[a] + PTHREAD_DESTRUCTOR_ITERATIONS {
      DestructorBound(old(d.calls), log, iterations, a);
    }
  }
}
