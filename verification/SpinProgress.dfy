/**
 What a waiting thread can count on: a free lock is taken within two steps, and from every
 reachable state there is a continuation in which a given waiting thread gets its lock.
 */
module SpinProgress {
  import opened Lockdep
  import opened Spinlocks

  lemma {:induction false} RunOne(s: State, a: Action)
    ensures Run(s, [a]) == Step(s, a)
  {
    hide Step;
    assert [a][1..] == [];
    RunNone(Step(s, a));
  }

  lemma {:induction false} RunNone(s: State)
    ensures Run(s, []) == s
  {
  }

  lemma {:induction false} RunAppend(s: State, a: seq<Action>, b: seq<Action>)
    ensures Run(s, a + b) == Run(Run(s, a), b)
    decreases |a|
  {
    hide Step;
    if a == [] {
      assert a + b == b;
    } else {
      assert (a + b)[1..] == a[1..] + b;
      RunAppend(Step(s, a[0]), a[1..], b);
    }
  }

  lemma {:induction false} RunTwo(s: State, a: Action, b: Action)
    ensures Run(s, [a, b]) == Step(Step(s, a), b)
  {
    hide Step, Run;
    assert [a, b] == [a] + [b];
    RunAppend(s, [a], [b]);
    RunOne(s, a);
    RunOne(Step(s, a), b);
  }

  // ---------- one thread ----------

  /** A thread waits from the moment its request is granted, until it has exchanged a 0. */
  lemma {:induction false} WaitsIs(s: State, t: nat, lock: Lock)
    requires t in s.threads
    ensures Waits(s, t, lock) <==> s.threads[t].pc in {Exchange(lock), Poll(lock)}
    ensures s.threads[t].pc == Idle && BeforeAcquire(s.threads[t].dep, lock.cls).1 == Ok ==>
            Waits(Step(s, Acquire(t, lock)), t, lock)
  {
    hide BeforeAcquire;
  }

  /** A thread waiting for a free lock takes it in its next one or two operations. */
  lemma {:induction false} FreeLockIsTaken(s: State, t: nat, lock: Lock)
    requires t in s.threads && s.threads[t].pc in {Exchange(lock), Poll(lock)} && lock !in s.locked
    ensures var r := Run(s, [Go(t), Go(t)]);
            && Holds(r, t, lock) && r.threads[t].pc == Idle
            && r.threads[t].held == s.threads[t].held + [lock] && r.locked == s.locked + {lock}
  {
    hide Run, BeforeAcquire, AfterRelease;
    RunTwo(s, Go(t), Go(t));
  }

  /** A thread waiting for a taken lock spins: its operations change nothing but its own place in the loop. */
  lemma {:induction false} TakenLockSpins(s: State, t: nat, lock: Lock)
    requires Waits(s, t, lock) && lock in s.locked
    ensures var r := Step(s, Go(t));
            && r.locked == s.locked && r == Put(s, t, s.threads[t].(pc := Poll(lock))) && Waits(r, t, lock)
  {
    var r := Step(s, Go(t));
    assert r.locked == s.locked;
    assert r.threads == s.threads[t := s.threads[t].(pc := Poll(lock))];
  }

  /** Taking a free lock that lockdep grants, and giving it back, is the identity. */
  lemma {:induction false} TakeAndGive(s: State, t: nat, lock: Lock)
    requires Inv(s) && t in s.threads && s.threads[t].pc == Idle && lock !in s.locked
    requires BeforeAcquire(s.threads[t].dep, lock.cls).1 == Ok
    ensures Holds(Run(s, [Acquire(t, lock), Go(t)]), t, lock)
    ensures Run(Run(s, [Acquire(t, lock), Go(t)]), [Release(t), Go(t)]) == s
  {
    hide Run, BeforeAcquire, AfterRelease, Inv, ThreadOk;
    InvThread(s, t);
    var th := s.threads[t];
    AfterReleaseIff(th.dep, lock.cls) by { ThreadDep(th); }
    RunTwo(s, Acquire(t, lock), Go(t));
    var r := Run(s, [Acquire(t, lock), Go(t)]);
    RunTwo(r, Release(t), Go(t));
    assert (th.held + [lock])[..|th.held|] == th.held;
    assert s.locked + {lock} - {lock} == s.locked;
    var q := Run(r, [Release(t), Go(t)]);
    assert q.threads == s.threads;
  }

  lemma {:induction false} ThreadDep(th: Thread)
    requires ThreadOk(th)
    ensures DepOk(th.dep)
  {
  }

  // ---------- giving back ----------

  /** Every action is one of thread t. */
  predicate Only(acts: seq<Action>, t: nat) { forall i :: 0 <= i < |acts| ==> acts[i].t == t }

  /** An idle thread that holds a lock can give back its locks, newest first, down to that one. */
  lemma {:induction false} GiveBack(s: State, t: nat, lock: Lock) returns (acts: seq<Action>)
    requires Inv(s) && Holds(s, t, lock) && s.threads[t].pc == Idle
    ensures Only(acts, t) && lock !in Run(s, acts).locked
    decreases |s.threads[t].held|
  {
    hide Inv, Run, ThreadOk, AfterRelease, BeforeAcquire;
    var th := s.threads[t];
    var n := |th.held| - 1;
    acts := [Release(t), Go(t)];
    RunTwo(s, Release(t), Go(t));
    RunKeeps(s, acts);
    var r := Run(s, acts);
    assert r.threads[t].pc == Idle && r.threads[t].held == th.held[..n] && r.locked == s.locked - {th.held[n]};
    if th.held[n] != lock {
      var rest := GiveBack(r, t, lock);
      RunAppend(s, acts, rest);
      acts := acts + rest;
    }
  }

  // ---------- a thread that takes no step ----------

  predicate Avoids(acts: seq<Action>, t: nat) { forall i :: 0 <= i < |acts| ==> acts[i].t != t }

  lemma {:induction false} Untouched(s: State, acts: seq<Action>, t: nat)
    requires t in s.threads && Avoids(acts, t)
    ensures var r := Run(s, acts); t in r.threads && r.threads[t] == s.threads[t]
    decreases |acts|
  {
    hide Step;
    if acts != [] {
      StepUntouched(s, acts[0], t);
      Untouched(Step(s, acts[0]), acts[1..], t);
    }
  }

  lemma {:induction false} StepUntouched(s: State, a: Action, t: nat)
    requires t in s.threads && a.t != t
    ensures t in Step(s, a).threads && Step(s, a).threads[t] == s.threads[t]
  {
    hide BeforeAcquire, AfterRelease;
  }

  // ---------- a continuation for every waiting thread ----------

  /** Thread v holds a lock of class c or above. */
  predicate HoldsFrom(s: State, v: nat, c: nat) {
    v in s.threads && exists i :: 0 <= i < |s.threads[v].held| && s.threads[v].held[i].cls >= c
  }

  /** The actions are those of t and of threads holding a lock of class c or above. */
  predicate Within(s: State, acts: seq<Action>, t: nat, c: nat) {
    forall i :: 0 <= i < |acts| ==> acts[i].t == t || HoldsFrom(s, acts[i].t, c)
  }

  /** A thread on its way to class c holds nothing of class c or above. */
  lemma {:induction false} WaiterHoldsBelow(s: State, t: nat, lock: Lock)
    requires Inv(s) && Waits(s, t, lock)
    ensures !HoldsFrom(s, t, lock.cls)
  {
    hide Inv, ThreadOk;
    InvThread(s, t);
    var th := s.threads[t];
    forall i | 0 <= i < |th.held| ensures th.held[i].cls < lock.cls { HeldBelow(th, th.held[i]); }
  }

  /** The holder of a lock gets out of the way of thread t, which waits for it. */
  lemma {:induction false} Freed(s: State, t: nat, u: nat, lock: Lock) returns (acts: seq<Action>)
    requires Inv(s) && Waits(s, t, lock) && Holds(s, u, lock)
    ensures Within(s, acts, t, lock.cls) && Avoids(acts, t) && lock !in Run(s, acts).locked
    decreases |Above(s, lock.cls)|, 0
  {
    hide Inv, Run, ThreadOk, Step;
    WaiterHoldsBelow(s, t, lock);
    HoldsIsFrom(s, u, lock);
    InvThread(s, u);
    var th := s.threads[u];
    var first: seq<Action> := [];
    RunNone(s);
    if th.pc.Released? {
      first := [Go(u)];
      RunOne(s, Go(u));
      DoneStep(s, u);
    } else if th.pc != Idle {
      HeldBelow(th, lock);
      AboveShrinks(s, u, lock.cls);
      first := CanTake(s, u, th.pc.lock);
      WithinMore(s, first, u, lock.cls, th.pc.lock.cls);
    }
    RunKeeps(s, first);
    var r := Run(s, first);
    assert Holds(r, u, lock) && r.threads[u].pc == Idle;
    var rest := GiveBack(r, u, lock);
    RunAppend(s, first, rest);
    acts := first + rest;
    assert Avoids(acts, t) && Within(s, acts, t, lock.cls);
  }

  lemma {:induction false} HoldsIsFrom(s: State, u: nat, lock: Lock)
    requires Holds(s, u, lock)
    ensures HoldsFrom(s, u, lock.cls)
  {
    var i :| 0 <= i < |s.threads[u].held| && s.threads[u].held[i] == lock;
    assert s.threads[u].held[i].cls >= lock.cls;
  }

  lemma {:induction false} DoneStep(s: State, u: nat)
    requires u in s.threads && s.threads[u].pc.Released?
    ensures var r := Step(s, Go(u)); u in r.threads && r.threads[u].pc == Idle && r.threads[u].held == s.threads[u].held
  {
    hide AfterRelease;
  }

  lemma {:induction false} AboveShrinks(s: State, u: nat, c: nat)
    requires u in s.threads && s.threads[u].pc != Idle && s.threads[u].pc.lock.cls > c
    ensures |Above(s, s.threads[u].pc.lock.cls)| < |Above(s, c)|
  {
    var d := s.threads[u].pc.lock.cls;
    assert u in Above(s, c) && u !in Above(s, d);
    Smaller(Above(s, d), Above(s, c));
  }

  lemma {:induction false} WithinMore(s: State, acts: seq<Action>, u: nat, c: nat, d: nat)
    requires Within(s, acts, u, d) && c <= d && HoldsFrom(s, u, c)
    ensures forall i :: 0 <= i < |acts| ==> HoldsFrom(s, acts[i].t, c)
  {
    forall i | 0 <= i < |acts| ensures HoldsFrom(s, acts[i].t, c) {
      var v := acts[i].t;
      if v != u {
        var k :| 0 <= k < |s.threads[v].held| && s.threads[v].held[k].cls >= d;
        assert s.threads[v].held[k].cls >= c;
      }
    }
  }

  /** A waiting thread can get its lock: the holder, and whoever it waits for in turn, finish first. */
  lemma {:induction false} CanTake(s: State, t: nat, lock: Lock) returns (acts: seq<Action>)
    requires Inv(s) && Waits(s, t, lock)
    ensures Within(s, acts, t, lock.cls)
    ensures var r := Run(s, acts);
            && t in r.threads && r.threads[t].pc == Idle && r.threads[t].held == s.threads[t].held + [lock]
    decreases |Above(s, lock.cls)|, 1
  {
    hide Run, ThreadOk, Step;
    var first: seq<Action> := [];
    RunNone(s);
    if lock in s.locked {
      assert Held(s, lock);
      var u :| Holds(s, u, lock);
      first := Freed(s, t, u, lock);
    }
    Untouched(s, first, t);
    var r := Run(s, first);
    assert Waits(r, t, lock);
    FreeLockIsTaken(r, t, lock);
    RunAppend(s, first, [Go(t), Go(t)]);
    acts := first + [Go(t), Go(t)];
  }

  /**
   No reachable state is stuck: whatever has happened, a thread inside mcs_spin_lock can still
   get its lock, by steps of its own and of threads holding its class or a higher one.
   */
  lemma {:induction false} NeverStuck(s0: State, past: seq<Action>, t: nat, lock: Lock)
    requires Initial(s0) && t in Run(s0, past).threads
    requires Run(s0, past).threads[t].pc in {Exchange(lock), Poll(lock)}
    ensures exists acts ::
      Within(Run(s0, past), acts, t, lock.cls) && Holds(Run(Run(s0, past), acts), t, lock)
  {
    hide Run, Inv;
    InitialInv(s0);
    RunKeeps(s0, past);
    var acts := CanTake(Run(s0, past), t, lock);
    assert Holds(Run(Run(s0, past), acts), t, lock);
  }
}
