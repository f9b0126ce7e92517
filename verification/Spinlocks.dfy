/**
 Any number of threads taking spinlocks (kernel/sync/spinlock.c) under the lock-order
 discipline, one atomic operation at a time: exclusion, and no circular wait ever.
 */
module Spinlocks {
  import opened Lockdep

  /** A lock is its address and its class; several locks may share a class. */
  datatype Lock = Lock(addr: nat, cls: nat)

  /**
   Where a thread is: between calls; in mcs_spin_lock about to exchange; in its inner loop
   about to load; or just past the store in mcs_spin_unlock, about to call after_release.
   */
  datatype Pc = Idle | Exchange(lock: Lock) | Poll(lock: Lock) | Released(lock: Lock)

  /** `held` are the locks taken and not yet given back, oldest first. */
  datatype Thread = Thread(pc: Pc, dep: Dep, held: seq<Lock>)

  /** `locked` are the locks whose word is 1. */
  datatype State = State(threads: map<nat, Thread>, locked: set<Lock>)

  /**
   Acquire: call before_acquire and, if it grants, enter mcs_spin_lock. Release: store 0 to
   the newest lock held. Go: the next atomic operation of a call under way.
   */
  datatype Action = Acquire(t: nat, lock: Lock) | Release(t: nat) | Go(t: nat)

  function Put(s: State, t: nat, th: Thread): State { s.(threads := s.threads[t := th]) }

  function Step(s: State, a: Action): State {
    if a.t !in s.threads then s
    else
      var th := s.threads[a.t];
      match a
      case Acquire(t, lock) =>
        if th.pc != Idle then s
        else
          var (d, rc) := BeforeAcquire(th.dep, lock.cls);
          Put(s, t, th.(dep := d, pc := if rc == Ok then Exchange(lock) else Idle))
      case Release(t) =>
        if th.pc != Idle || th.held == [] then s
        else
          var n := |th.held| - 1;
          var lock := th.held[n];
          Put(s, t, th.(held := th.held[..n], pc := Released(lock))).(locked := s.locked - {lock})
      case Go(t) =>
        match th.pc
        case Idle => s
        case Exchange(lock) =>
          Put(s, t, if lock in s.locked then th.(pc := Poll(lock)) else th.(pc := Idle, held := th.held + [lock]))
            .(locked := s.locked + {lock})
        case Poll(lock) => if lock in s.locked then s else Put(s, t, th.(pc := Exchange(lock)))
        case Released(lock) => Put(s, t, th.(dep := AfterRelease(th.dep, lock.cls).0, pc := Idle))
  }

  function Run(s: State, acts: seq<Action>): State
    decreases |acts|
  {
    if acts == [] then s else Run(Step(s, acts[0]), acts[1..])
  }

  /** Before any thread has done anything. */
  predicate Initial(s: State) {
    s.locked == {} && forall t :: t in s.threads ==> s.threads[t] == Thread(Idle, Dep([], 0), [])
  }

  // ---------- the invariant ----------

  function Classes(held: seq<Lock>): seq<nat> { seq(|held|, i requires 0 <= i < |held| => held[i].cls) }

  /** The lockdep stack: the classes held, and on top the class being taken or given back. */
  function Stack(th: Thread): seq<nat> {
    Classes(th.held) + if th.pc == Idle then [] else [th.pc.lock.cls]
  }

  predicate ThreadOk(th: Thread) { DepOk(th.dep) && th.dep.stack == Stack(th) }

  predicate Holds(s: State, t: nat, lock: Lock) { t in s.threads && lock in s.threads[t].held }

  ghost predicate Held(s: State, lock: Lock) { exists t :: Holds(s, t, lock) }

  ghost predicate Inv(s: State) {
    && (forall t :: t in s.threads ==> ThreadOk(s.threads[t]))
    && (forall t, u, lock :: Holds(s, t, lock) && Holds(s, u, lock) ==> t == u)
    && (forall lock :: lock in s.locked ==> Held(s, lock))
    && (forall t, lock :: Holds(s, t, lock) ==> lock in s.locked)
  }

  lemma {:induction false} InitialInv(s: State)
    requires Initial(s)
    ensures Inv(s)
  {
    forall t | t in s.threads ensures ThreadOk(s.threads[t]) { assert Stack(s.threads[t]) == []; }
  }

  /** Taking apart the stack of a thread that is waiting or releasing. */
  lemma {:induction false} HeldBelow(th: Thread, lock: Lock)
    requires ThreadOk(th) && th.pc != Idle && lock in th.held
    ensures lock.cls < th.pc.lock.cls
  {
    var i :| 0 <= i < |th.held| && th.held[i] == lock;
    assert th.dep.stack[i] == lock.cls && th.dep.stack[|th.held|] == th.pc.lock.cls;
  }

  /** No thread holds the same lock twice. */
  lemma {:induction false} HeldOnce(th: Thread, i: nat, j: nat)
    requires ThreadOk(th) && i < j < |th.held|
    ensures th.held[i] != th.held[j]
  {
    assert th.dep.stack[i] == th.held[i].cls && th.dep.stack[j] == th.held[j].cls;
  }

  lemma {:induction false} ClassesSnoc(held: seq<Lock>, lock: Lock)
    ensures Classes(held + [lock]) == Classes(held) + [lock.cls]
  {
  }

  lemma {:induction false} AcquireOk(th: Thread, lock: Lock)
    requires ThreadOk(th) && th.pc == Idle
    ensures var (d, rc) := BeforeAcquire(th.dep, lock.cls);
            ThreadOk(th.(dep := d, pc := if rc == Ok then Exchange(lock) else Idle))
  {
    hide DepOk, BeforeAcquire, Classes;
    BeforeAcquireIff(th.dep, lock.cls);
    assert Classes(th.held) + [] == Classes(th.held);
  }

  lemma {:induction false} TakenOk(th: Thread, lock: Lock)
    requires ThreadOk(th) && th.pc == Exchange(lock)
    ensures ThreadOk(th.(pc := Idle, held := th.held + [lock]))
  {
    hide DepOk, Classes;
    ClassesSnoc(th.held, lock);
    assert Classes(th.held + [lock]) + [] == Classes(th.held) + [lock.cls];
  }

  lemma {:induction false} GivenOk(th: Thread)
    requires ThreadOk(th) && th.pc == Idle && th.held != []
    ensures var n := |th.held| - 1; ThreadOk(th.(held := th.held[..n], pc := Released(th.held[n])))
  {
    hide DepOk, Classes;
    var n := |th.held| - 1;
    ClassesSnoc(th.held[..n], th.held[n]);
    assert th.held == th.held[..n] + [th.held[n]];
    assert Classes(th.held) + [] == Classes(th.held);
  }

  /** after_release never complains. */
  lemma {:induction false} DoneOk(th: Thread, lock: Lock)
    requires ThreadOk(th) && th.pc == Released(lock)
    ensures AfterRelease(th.dep, lock.cls).1 == Ok
    ensures ThreadOk(th.(dep := AfterRelease(th.dep, lock.cls).0, pc := Idle))
  {
    hide DepOk;
    AfterReleaseIff(th.dep, lock.cls);
    var d := AfterRelease(th.dep, lock.cls).0;
    assert th.dep.stack[|th.held|] == lock.cls;
    assert d.stack == Classes(th.held) + [] by { assert th.dep.stack[..|th.held|] == Classes(th.held); }
  }

  /** A step that leaves every thread's held locks and the lock words alone. */
  lemma {:induction false} QuietStep(s: State, t: nat, th: Thread)
    requires Inv(s) && t in s.threads && ThreadOk(th) && th.held == s.threads[t].held
    ensures Inv(Put(s, t, th))
  {
    hide ThreadOk;
    var r := Put(s, t, th);
    forall u, lock ensures Holds(r, u, lock) <==> Holds(s, u, lock) {}
    forall lock | lock in r.locked ensures Held(r, lock) {
      assert Held(s, lock);
      var u :| Holds(s, u, lock);
      assert Holds(r, u, lock);
    }
  }

  lemma {:induction false} TakeStep(s: State, t: nat, lock: Lock)
    requires Inv(s) && t in s.threads && s.threads[t].pc == Exchange(lock) && lock !in s.locked
    ensures Inv(Step(s, Go(t)))
  {
    hide ThreadOk;
    var th := s.threads[t];
    TakenOk(th, lock);
    var r := Step(s, Go(t));
    forall u, l ensures Holds(r, u, l) <==> Holds(s, u, l) || (u == t && l == lock) {}
    forall l | l in r.locked ensures Held(r, l) {
      if l == lock {
        assert Holds(r, t, l);
      } else {
        assert Held(s, l);
        var u :| Holds(s, u, l);
        assert Holds(r, u, l);
      }
    }
  }

  lemma {:induction false} GiveStep(s: State, t: nat)
    requires Inv(s) && t in s.threads && s.threads[t].pc == Idle && s.threads[t].held != []
    ensures Inv(Step(s, Release(t)))
  {
    hide ThreadOk;
    var th := s.threads[t];
    var n := |th.held| - 1;
    var lock := th.held[n];
    GivenOk(th);
    var r := Step(s, Release(t));
    forall l | l in th.held[..n] ensures l != lock {
      var i :| 0 <= i < n && th.held[i] == l;
      HeldOnce(th, i, n);
    }
    assert Holds(s, t, lock);
    forall u, l ensures Holds(r, u, l) <==> Holds(s, u, l) && l != lock {
      if u == t && t in s.threads { assert l in th.held <==> l in th.held[..n] || l == lock; }
    }
    forall l | l in r.locked ensures Held(r, l) {
      assert Held(s, l);
      var u :| Holds(s, u, l);
      assert Holds(r, u, l);
    }
  }

  /** Every atomic step keeps the invariant. */
  lemma {:induction false} StepKeeps(s: State, a: Action)
    requires Inv(s)
    ensures Inv(Step(s, a)) && Step(s, a).threads.Keys == s.threads.Keys
  {
    hide Inv, ThreadOk, BeforeAcquire, AfterRelease;
    if a.t in s.threads {
      var th := s.threads[a.t];
      assert ThreadOk(th) by { InvThread(s, a.t); }
      match a
      case Acquire(t, lock) =>
        if th.pc == Idle {
          AcquireOk(th, lock);
          var (d, rc) := BeforeAcquire(th.dep, lock.cls);
          QuietStep(s, t, th.(dep := d, pc := if rc == Ok then Exchange(lock) else Idle));
        }
      case Release(t) => if th.pc == Idle && th.held != [] { GiveStep(s, t); }
      case Go(t) =>
        match th.pc
        case Idle =>
        case Exchange(lock) =>
          if lock in s.locked {
            PollOk(th, lock);
            QuietStep(s, t, th.(pc := Poll(lock)));
            assert s.locked + {lock} == s.locked;
          } else {
            TakeStep(s, t, lock);
          }
        case Poll(lock) =>
          if lock !in s.locked {
            PollOk(th, lock);
            QuietStep(s, t, th.(pc := Exchange(lock)));
          }
        case Released(lock) =>
          DoneOk(th, lock);
          QuietStep(s, t, th.(dep := AfterRelease(th.dep, lock.cls).0, pc := Idle));
    }
  }

  lemma {:induction false} InvThread(s: State, t: nat)
    requires Inv(s) && t in s.threads
    ensures ThreadOk(s.threads[t])
  {
  }

  lemma {:induction false} PollOk(th: Thread, lock: Lock)
    requires ThreadOk(th) && (th.pc == Exchange(lock) || th.pc == Poll(lock))
    ensures ThreadOk(th.(pc := Poll(lock))) && ThreadOk(th.(pc := Exchange(lock)))
  {
  }

  lemma {:induction false} RunKeeps(s: State, acts: seq<Action>)
    requires Inv(s)
    ensures Inv(Run(s, acts))
    decreases |acts|
  {
    hide Inv, Step;
    if acts != [] {
      StepKeeps(s, acts[0]);
      RunKeeps(Step(s, acts[0]), acts[1..]);
    }
  }

  // ---------- exclusion and absence of deadlock ----------

  /** Thread t is inside mcs_spin_lock on this lock. */
  predicate Waits(s: State, t: nat, lock: Lock) {
    t in s.threads && (s.threads[t].pc == Exchange(lock) || s.threads[t].pc == Poll(lock))
  }

  /** Thread t waits for a lock that thread u holds. */
  predicate WaitsFor(s: State, t: nat, u: nat) {
    t in s.threads && s.threads[t].pc != Idle && Waits(s, t, s.threads[t].pc.lock) && Holds(s, u, s.threads[t].pc.lock)
  }

  /** A chain of threads, each waiting for a lock the next one holds. */
  predicate Chain(s: State, ts: seq<nat>) {
    forall i :: 0 <= i < |ts| - 1 ==> WaitsFor(s, ts[i], ts[i + 1])
  }

  /** Along a chain the classes waited for strictly increase. */
  lemma {:induction false} ChainClimbs(s: State, ts: seq<nat>)
    requires Inv(s) && |ts| >= 2 && Chain(s, ts)
    requires ts[|ts| - 1] in s.threads && s.threads[ts[|ts| - 1]].pc != Idle
    ensures ts[0] in s.threads && s.threads[ts[0]].pc != Idle
    ensures s.threads[ts[0]].pc.lock.cls < s.threads[ts[|ts| - 1]].pc.lock.cls
    decreases |ts|
  {
    hide Inv, ThreadOk;
    var n := |ts| - 1;
    assert WaitsFor(s, ts[n - 1], ts[n]);
    InvThread(s, ts[n]);
    HeldBelow(s.threads[ts[n]], s.threads[ts[n - 1]].pc.lock);
    if n > 1 {
      var us := ts[..n];
      forall i | 0 <= i < |us| - 1 ensures WaitsFor(s, us[i], us[i + 1]) { assert WaitsFor(s, ts[i], ts[i + 1]); }
      ChainClimbs(s, us);
    }
  }

  /** The stack discipline and mutual exclusion, in every reachable state. */
  lemma {:induction false} Disciplined(s0: State, acts: seq<Action>, t: nat, u: nat, lock: Lock)
    requires Initial(s0)
    ensures var s := Run(s0, acts);
            && (t in s.threads ==> Ascending(s.threads[t].dep.stack) && |s.threads[t].dep.stack| <= MAX_HELD)
            && (Holds(s, t, lock) && Holds(s, u, lock) ==> t == u)
            && (lock in s.locked <==> Held(s, lock))
  {
    hide Run;
    InitialInv(s0);
    RunKeeps(s0, acts);
    if t in Run(s0, acts).threads { InvThread(Run(s0, acts), t); }
  }

  /**
   No reachable state has a circular wait: no chain of one or more threads, each waiting
   for a lock the next one holds, comes back to its first thread.
   */
  lemma {:induction false} NoCircularWait(s0: State, acts: seq<Action>, ts: seq<nat>)
    requires Initial(s0) && |ts| >= 2 && ts[|ts| - 1] == ts[0]
    ensures !Chain(Run(s0, acts), ts)
  {
    hide Inv, Run, ThreadOk;
    InitialInv(s0);
    RunKeeps(s0, acts);
    var s := Run(s0, acts);
    if Chain(s, ts) {
      assert WaitsFor(s, ts[0], ts[1]);
      ChainClimbs(s, ts);
    }
  }

  /** Threads that wait for a class above c. */
  function Above(s: State, c: nat): set<nat> {
    set t | t in s.threads && s.threads[t].pc != Idle && s.threads[t].pc.lock.cls > c
  }

  /** Thread u is not in mcs_spin_lock, or is there for a lock that is free. */
  ghost predicate Unblocked(s: State, u: nat) {
    u in s.threads && forall l :: Waits(s, u, l) ==> l !in s.locked
  }

  /**
   Progress: from a thread that waits for a taken lock there is a chain of threads, each
   waiting for a lock the next one holds, that ends at a thread which is not blocked.
   */
  lemma {:induction false} SomeoneCanRun(s: State, t: nat, lock: Lock) returns (ts: seq<nat>)
    requires Inv(s) && Waits(s, t, lock) && lock in s.locked
    ensures |ts| >= 2 && ts[0] == t && Chain(s, ts) && Unblocked(s, ts[|ts| - 1])
    decreases |Above(s, lock.cls)|
  {
    hide ThreadOk;
    assert Held(s, lock);
    var u :| Holds(s, u, lock);
    InvThread(s, u);
    var th := s.threads[u];
    assert WaitsFor(s, t, u);
    if th.pc != Idle && Waits(s, u, th.pc.lock) && th.pc.lock in s.locked {
      HeldBelow(th, lock);
      assert Above(s, th.pc.lock.cls) < Above(s, lock.cls) by {
        assert u in Above(s, lock.cls) && u !in Above(s, th.pc.lock.cls);
      }
      Smaller(Above(s, th.pc.lock.cls), Above(s, lock.cls));
      var us := SomeoneCanRun(s, u, th.pc.lock);
      ts := [t] + us;
      forall i | 0 <= i < |ts| - 1 ensures WaitsFor(s, ts[i], ts[i + 1]) {
        if i > 0 { assert WaitsFor(s, us[i - 1], us[i]); }
      }
    } else {
      ts := [t, u];
    }
  }

  lemma {:induction false} Smaller(a: set<nat>, b: set<nat>)
    requires a < b
    ensures |a| < |b|
    decreases a
  {
    if a == {} {
      var x :| x in b;
      assert |b| == 1 + |b - {x}|;
    } else {
      var x :| x in a;
      Smaller(a - {x}, b - {x});
    }
  }
}
