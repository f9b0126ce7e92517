/**
 The linked ready queue of kernel/mcsos_thread.c: head, tail and next pointers that always
 spell the FIFO queue of the specification.
 */
module ThreadQueue {
  import opened Words
  import opened Scheduler


  datatype ThreadState = New | Ready | Running | Blocked | Zombie

  class Thread {
    var id: nat
    var state: ThreadState
    var next: Thread?
    var ticks: nat

    constructor (id: nat)
      ensures state == Ready && next == null && ticks == 0 && this.id == id
    {
      this.id := id;
      state := Ready;
      next := null;
      ticks := 0;
    }
  }

  class ReadyQueue {
    var current: Thread
    var head: Thread?
    var tail: Thread?
    var count: nat
    var switches: nat
    ghost var queue: seq<Thread>

    /** The pointers spell q: no cycle, no thread twice, the running thread not in it. */
    ghost predicate LinkedAs(q: seq<Thread>)
      reads this, q
    {
      && Distinct(q) && current !in q
      && (q == [] ==> head == null && tail == null)
      && (q != [] ==> head == q[0] && tail == q[|q| - 1] && q[|q| - 1].next == null)
      && (forall i :: 0 <= i < |q| - 1 ==> q[i].next == q[i + 1])
    }

    ghost predicate ValidAs(q: seq<Thread>)
      reads this, q, current
    {
      && LinkedAs(q) && current.state == Running && count == |q| % U64
      && (forall u :: u in q ==> u.state == Ready)
    }

    ghost predicate Valid()
      reads this, queue, current
    {
      ValidAs(queue)
    }

    ghost function Model(): Sched<Thread>
      reads this
    {
      Sched(current, queue)
    }

    /** mcsos_scheduler_init */
    constructor (boot: Thread)
      modifies boot
      ensures Valid() && Model() == Sched(boot, []) && count == 0 && switches == 0 && boot.id == 0
    {
      current := boot;
      head := null;
      tail := null;
      count := 0;
      switches := 0;
      queue := [];
      new;
      boot.state := Running;
      boot.id := 0;
    }

    /** The pointer work of enqueue and of yield, whatever the thread. */
    method LinkAtTail(t: Thread)
      modifies this`head, this`tail, t`state, t`next, (if tail == null then {} else {tail})`next
      ensures t.state == Ready && tail == t
      ensures old(tail) == null ==> head == t && t.next == null
      ensures old(tail) != null ==> head == old(head) && old(tail).next == t && (t != old(tail) ==> t.next == null)
    {
      t.state := Ready;
      t.next := null;
      if tail == null {
        head, tail := t, t;
      } else {
        tail.next := t;
        tail := t;
      }
    }

    /** Append a thread that is not in the queue. */
    method Append(t: Thread)
      requires LinkedAs(queue) && t !in queue && t != current
      modifies this`head, this`tail, this`queue, t`state, t`next, queue
      ensures LinkedAs(queue) && queue == old(queue) + [t] && t.state == Ready
      ensures forall u :: u in old(queue) ==> u.state == old(u.state)
    {
      LinkAtTail(t);
      queue := queue + [t];
    }

    /** mcsos_sched_enqueue */
    method EnqueueThread(t: Thread)
      requires Valid() && t != current && t !in queue
      modifies this, t, queue
      ensures Valid() && Model() == Enqueue(old(Model()), t) && switches == old(switches)
    {
      Append(t);
      count := (count + 1) % U64;
      Modulo(|queue| - 1);
    }

    /**
     mcsos_sched_enqueue of any thread at all, as the code does not refuse one: afterwards some
     queue makes the scheduler valid if and only if the thread was neither running nor queued.
     The running thread is left marked ready, the last queued one becomes its own successor,
     and one further ahead cuts the list short of the counter.
     */
    method EnqueueAny(t: Thread)
      requires Valid() && |queue| < U64
      modifies this, t, queue
      ensures current == old(current) && switches == old(switches) && count == (old(count) + 1) % U64
      ensures (exists q: seq<Thread> :: ValidAs(q)) <==> t != current && t !in old(queue)
      ensures t != current && t !in old(queue) ==> Valid() && Model() == Enqueue(old(Model()), t)
      ensures t == current ==> current.state == Ready
      ensures t in old(queue) ==> head == old(head) && tail == t
      ensures t in old(queue) && t == old(tail) ==> t.next == t
      ensures t in old(queue) && t != old(tail) ==> t.next == null
    {
      ghost var q0 := queue;
      Modulo(|q0|);
      LinkAtTail(t);
      count := (count + 1) % U64;
      if t == current {
        NoneIfNotRunning();
      } else if t !in q0 {
        queue := q0 + [t];
        Appended(t, q0);
      } else if t == old(tail) {
        NoneIfLooped();
      } else {
        ghost var m :| 0 <= m < |q0| && q0[m] == t;
        CutShort(t, q0, m);
      }
    }

    lemma {:induction false} Appended(t: Thread, q: seq<Thread>)
      requires Distinct(q) && current !in q && t !in q && t != current
      requires if q == [] then head == t else head == q[0] && q[|q| - 1].next == t
      requires forall i :: 0 <= i < |q| - 1 ==> q[i].next == q[i + 1]
      requires tail == t && t.next == null && t.state == Ready && current.state == Running
      requires count == (|q| + 1) % U64 && forall u :: u in q ==> u.state == Ready
      ensures ValidAs(q + [t])
    {
    }

    lemma {:induction false} CutShort(t: Thread, q: seq<Thread>, m: nat)
      requires m + 1 < |q| < U64 && q[m] == t && head == q[0] && t.next == null && count == (|q| + 1) % U64
      requires forall i :: 0 <= i < m ==> q[i].next == q[i + 1]
      ensures forall p: seq<Thread> :: !ValidAs(p)
    {
      NoneIfShort(q[..m + 1]);
    }

    lemma {:induction false} NoneIfNotRunning()
      requires current.state != Running
      ensures forall q: seq<Thread> :: !ValidAs(q)
    {
    }

    /** A last thread that has a successor ends no list. */
    lemma {:induction false} NoneIfLooped()
      requires tail != null && tail.next != null
      ensures forall q: seq<Thread> :: !ValidAs(q)
    {
    }

    /** A list that the counter does not count is not the queue, and there is no other. */
    lemma {:induction false} NoneIfShort(l: seq<Thread>)
      requires l != [] && head == l[0] && l[|l| - 1].next == null && count != |l| % U64
      requires forall i :: 0 <= i < |l| - 1 ==> l[i].next == l[i + 1]
      ensures forall q: seq<Thread> :: !ValidAs(q)
    {
      forall q: seq<Thread> | LinkedAs(q) ensures |q| == |l| { Spells(l, q); }
    }

    /** Following the pointers from the head to a null one gives lists of one length only. */
    lemma {:induction false} Spells(l: seq<Thread>, q: seq<Thread>)
      requires l != [] && head == l[0] && l[|l| - 1].next == null && LinkedAs(q)
      requires forall i :: 0 <= i < |l| - 1 ==> l[i].next == l[i + 1]
      ensures |q| == |l|
    {
      var n := if |q| < |l| then |q| else |l|;
      SameSoFar(l, q, n - 1);
      EndsAt(l, n - 1);
      EndsAt(q, n - 1);
    }

    lemma {:induction false} EndsAt(l: seq<Thread>, k: nat)
      requires k < |l| && l[|l| - 1].next == null && forall i :: 0 <= i < |l| - 1 ==> l[i].next == l[i + 1]
      ensures l[k].next == null <==> k == |l| - 1
    {
      if k < |l| - 1 { assert l[k].next == l[k + 1]; }
    }

    lemma {:induction false} SameSoFar(l: seq<Thread>, q: seq<Thread>, i: nat)
      requires l != [] && q != [] && head == l[0] == q[0] && i < |l| && i < |q|
      requires forall k :: 0 <= k < |l| - 1 ==> l[k].next == l[k + 1]
      requires forall k :: 0 <= k < |q| - 1 ==> q[k].next == q[k + 1]
      ensures l[i] == q[i]
    {
      if i > 0 { SameSoFar(l, q, i - 1); }
    }

    /** Unlink the first queued thread. */
    method TakeHead() returns (t: Thread)
      requires LinkedAs(queue) && head != null
      modifies this`head, this`tail, this`queue
      ensures old(queue) != [] && t == old(queue)[0] && queue == old(queue)[1..]
      ensures LinkedAs(queue) && t !in queue && t != current
    {
      t := head;
      head := t.next;
      if head == null { tail := null; }
      queue := queue[1..];
    }

    /** Make a thread that is not queued the running one. */
    method SwitchTo(next: Thread)
      requires LinkedAs(queue) && next !in queue
      modifies this`current, next`state
      ensures LinkedAs(queue) && current == next && next.state == Running
    {
      next.state := Running;
      current := next;
    }

    /** The first queued thread runs and the running one queues up behind the others. */
    method Rotate()
      requires LinkedAs(queue) && head != null
      modifies this`head, this`tail, this`queue, this`current, current`state, current`next, queue
      ensures LinkedAs(queue) && old(queue) != []
      ensures current == old(queue)[0] && current.state == Running
      ensures queue == old(queue)[1..] + [old(current)] && old(current).state == Ready
      ensures forall u :: u in old(queue)[1..] ==> u.state == old(u.state)
    {
      var last := current;
      var next := TakeHead();
      hide LinkedAs;
      SwitchTo(next);
      Append(last);
    }

    /** mcsos_sched_yield */
    method YieldCpu() returns (ok: bool)
      requires Valid()
      modifies this, current, queue
      ensures Valid() && (Model(), ok) == Yield(old(Model()))
      ensures switches == if ok then (old(switches) + 1) % U64 else old(switches)
    {
      EmptyIffNoHead();
      hide LinkedAs;
      if head == null { return false; }
      Rotate();
      switches := (switches + 1) % U64;
      return true;
    }

    lemma {:induction false} EmptyIffNoHead()
      requires LinkedAs(queue)
      ensures head == null <==> queue == []
    {
    }

    /** mcsos_sched_tick */
    method Tick()
      requires Valid()
      modifies current`ticks
      ensures Valid() && Model() == old(Model()) && current.ticks == (old(current.ticks) + 1) % U64
    {
      current.ticks := (current.ticks + 1) % U64;
    }

    /** mcsos_sched_ready_count */
    method ReadyCount() returns (n: nat)
      requires Valid()
      ensures n == |queue| % U32
    {
      n := count % U32;
      Truncate(|queue|);
    }

    /**
     mcsos_sched_validate: walks the list, which ends; succeeds exactly when every queued
     thread is ready and the counter is right.
     */
    method Validate() returns (ok: bool)
      requires LinkedAs(queue)
      ensures ok <==> count == |queue| % U64 && forall u :: u in queue ==> u.state == Ready
      ensures Valid() ==> ok
    {
      var n := 0;
      var cur := head;
      ghost var i := 0;
      while cur != null
        invariant 0 <= i <= |queue| && cur == (if i < |queue| then queue[i] else null)
        invariant n == i % U64 && forall k :: 0 <= k < i ==> queue[k].state == Ready
        decreases |queue| - i
      {
        if cur.state != Ready { return false; }
        Modulo(i);
        n := (n + 1) % U64;
        cur := cur.next;
        i := i + 1;
      }
      return n == count;
    }
  }

  lemma {:induction false} Modulo(n: nat)
    ensures (n % U64 + 1) % U64 == (n + 1) % U64
  {
  }

  lemma {:induction false} Truncate(n: nat)
    ensures n % U64 % U32 == n % U32
  {
    assert n == n / U64 * U32 * U32 + n % U64;
    assert (n / U64 * U32 * U32 + n % U64) % U32 == n % U64 % U32;
  }
}
