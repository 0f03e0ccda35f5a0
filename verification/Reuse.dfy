/** Thread structs of pthreads-win32 are never freed: destroyed ones wait in a queue to be used again,
    and a counter in each tells its handles apart. */
module Reuse {

  /** x is an unsigned int and wraps around. */
  const WRAP: nat := 0x1_0000_0000

  class ThreadStruct {
    var x: nat
    var prevReuse: ThreadStruct?
    /** How often the struct has been put into the queue, without the wrap. */
    ghost var pushes: nat

    constructor ()
      ensures x == 0 && pushes == 0 && prevReuse == null
    {
      x, pushes, prevReuse := 0, 0, null;
    }

    /** What pthread_detach, pthread_join and pthread_kill test of a handle (this, x). */
    predicate Validates(copy: nat)
      reads this`x
    {
      copy == x
    }
  }

  /** A handle copied when the struct had been pushed n times validates exactly while the number of
      pushes since then is a multiple of 2^32: short of the wrap, while there was none. */
  lemma HandleAge(tp: ThreadStruct, n: nat)
    requires tp.x == tp.pushes % WRAP && n <= tp.pushes
    ensures tp.Validates(n % WRAP) <==> (tp.pushes - n) % WRAP == 0
    ensures tp.pushes - n < WRAP ==> (tp.Validates(n % WRAP) <==> n == tp.pushes)
  {
    SameRemainder(n, tp.pushes - n);
  }

  lemma SameRemainder(n: nat, d: nat)
    ensures n % WRAP == (n + d) % WRAP <==> d % WRAP == 0
  {
    assert n == n / WRAP * WRAP + n % WRAP && d == d / WRAP * WRAP + d % WRAP;
    assert n + d == (n / WRAP + d / WRAP) * WRAP + (n % WRAP + d % WRAP);
    var q := (n + d) / WRAP - n / WRAP - d / WRAP;
    assert q * WRAP == n % WRAP + d % WRAP - (n + d) % WRAP;
  }

  /** The queue; an empty end, (ptw32_thread_t *) 1 in the source, is null here. */
  class Pool {
    var top: ThreadStruct?
    var bottom: ThreadStruct?
    ghost var queue: seq<ThreadStruct>

    ghost predicate Valid()
      reads this, queue`prevReuse, queue`x, queue`pushes
    {
      && (forall i, j :: 0 <= i < j < |queue| ==> queue[i] != queue[j])
      && top == (if queue == [] then null else queue[0])
      && bottom == (if queue == [] then null else queue[|queue| - 1])
      && (forall i {:trigger queue[i].prevReuse} :: 0 <= i < |queue| ==>
            queue[i].prevReuse == if i + 1 < |queue| then queue[i + 1] else null)
      && (forall i :: 0 <= i < |queue| ==> queue[i].x == queue[i].pushes % WRAP)
    }

    constructor ()
      ensures Valid() && queue == []
    {
      top, bottom, queue := null, null, [];
    }

    /** ptw32_threadReusePop: the struct that has waited longest, with its handle as it is. */
    method Pop() returns (tp: ThreadStruct?)
      requires Valid()
      modifies this, queue`prevReuse
      ensures Valid()
      ensures old(queue) == [] ==> tp == null && queue == []
      ensures old(queue) != [] ==> tp == old(queue)[0] && queue == old(queue)[1..] && tp.prevReuse == null
    {
      tp := null;
      if top != null {
        tp := top;
        top := tp.prevReuse;
        if top == null {
          bottom := null;
        }
        tp.prevReuse := null;
        queue := queue[1..];
      }
    }

    /** ptw32_threadReusePush: the struct goes to the end of the queue and its handles age by one. */
    method Push(tp: ThreadStruct)
      requires Valid() && tp !in queue && tp.x == tp.pushes % WRAP
      modifies this, tp, queue`prevReuse
      ensures Valid() && queue == old(queue) + [tp]
      ensures tp.pushes == old(tp.pushes) + 1
      ensures forall copy :: tp.Validates(copy) <==> copy == tp.pushes % WRAP
    {
      var x := tp.x;
      tp.x := (x + 1) % WRAP;
      tp.pushes := tp.pushes + 1;
      tp.prevReuse := null;
      if bottom != null {
        bottom.prevReuse := tp;
      } else {
        top := tp;
      }
      bottom := tp;
      queue := queue + [tp];
      Wrapped(tp.pushes - 1);
    }

    /** ptw32_new: a struct from the queue, or a new one when there is none. */
    method New() returns (tp: ThreadStruct)
      requires Valid()
      modifies this, queue`prevReuse
      ensures Valid() && tp !in queue && tp.x == tp.pushes % WRAP
      ensures if old(queue) == [] then fresh(tp) && queue == [] && tp.pushes == 0
              else tp == old(queue)[0] && queue == old(queue)[1..] && tp.pushes == old(tp.pushes)
    {
      var t := Pop();
      if t == null {
        t := new ThreadStruct();
      }
      tp := t;
    }
  }

  lemma Wrapped(n: nat)
    ensures (n % WRAP + 1) % WRAP == (n + 1) % WRAP
  {
  }
}
