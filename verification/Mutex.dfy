/**
 The owner-checking mutex (kernel/sync/mutex.c) under every interleaving of its atomic
 operations by any number of threads, each identified by its owner id.
 */
module Mutex {
  import opened Lockdep

  datatype Call = TryLock | Unlock

  /**
   The next atomic operation of a thread: none (between calls); in try_lock the
   compare-exchange, the owner load after it failed, or the owner store after it succeeded;
   in unlock the owner load, the owner store, or the lock-word store.
   */
  datatype Pc = Idle | Cas | LoadOwner | StoreOwner | AskOwner | DropOwner | DropLock

  /** A call that has returned. */
  datatype Event = Event(id: nat, call: Call, rc: Rc)

  datatype State = State(locked: bool, owner: nat, pcs: map<nat, Pc>, log: seq<Event>)

  /** A thread between calls starts one, or a thread in a call does its next atomic operation. */
  datatype Action = Begin(id: nat, call: Call) | Go(id: nat)

  function At(s: State, id: nat): Pc { if id in s.pcs then s.pcs[id] else Idle }

  function Move(s: State, id: nat, pc: Pc): State { s.(pcs := s.pcs[id := pc]) }

  function Return(s: State, id: nat, call: Call, rc: Rc): State {
    s.(pcs := s.pcs[id := Idle], log := s.log + [Event(id, call, rc)])
  }

  function Step(s: State, a: Action): State {
    var id := a.id;
    match a
    case Begin(_, call) =>
      if At(s, id) != Idle then s
      else if id == 0 then Return(s, id, call, Inval)
      else Move(s, id, if call == TryLock then Cas else AskOwner)
    case Go(_) =>
      match At(s, id)
      case Idle => s
      case Cas => if s.locked then Move(s, id, LoadOwner) else Move(s, id, StoreOwner).(locked := true)
      case LoadOwner => Return(s, id, TryLock, if s.owner == id then DeadLk else Busy)
      case StoreOwner => Return(s, id, TryLock, Ok).(owner := id)
      case AskOwner => if s.owner != id then Return(s, id, Unlock, Perm) else Move(s, id, DropOwner)
      case DropOwner => Move(s, id, DropLock).(owner := 0)
      case DropLock => Return(s, id, Unlock, Ok).(locked := false)
  }

  function Run(s: State, acts: seq<Action>): State
    decreases |acts|
  {
    if acts == [] then s else Run(Step(s, acts[0]), acts[1..])
  }

  /** mcs_mutex_init, with every thread between calls. */
  predicate Initial(s: State) {
    !s.locked && s.owner == 0 && s.log == [] && forall id :: id in s.pcs ==> s.pcs[id] == Idle
  }

  // ---------- what the returned calls say ----------

  /**
   The thread that, going by the returned calls alone, has locked the mutex and not yet
   unlocked it; 0 when there is none.
   */
  function Holder(log: seq<Event>): nat
    decreases |log|
  {
    if log == [] then 0
    else
      var e := log[|log| - 1];
      if e.rc == Ok then (if e.call == TryLock then e.id else 0) else Holder(log[..|log| - 1])
  }

  /**
   Is this result right for a caller, given who held the mutex when the call returned?
   Only a free mutex is acquired, only the holder releases it, only the holder is told that
   it would deadlock, and a holder that tries again is told nothing else.
   */
  predicate Right(holder: nat, e: Event) {
    if e.id == 0 then e.rc == Inval
    else match e.call
      case TryLock =>
        if holder == e.id then e.rc == DeadLk
        else e.rc == Busy || (e.rc == Ok && holder == 0)
      case Unlock => e.rc == if holder == e.id then Ok else Perm
  }

  predicate LogOk(log: seq<Event>) {
    forall i :: 0 <= i < |log| ==> Right(Holder(log[..i]), log[i])
  }

  // ---------- the invariant ----------

  /** The thread whose compare-exchange took the mutex and whose unlock has not yet stored 0. */
  predicate Inside(s: State, id: nat) {
    id != 0 && (At(s, id) == StoreOwner || Holder(s.log) == id)
  }

  /**
   A free mutex has no owner and nobody inside; a taken one has exactly one thread inside.
   Its owner field names a thread that has returned from try_lock and not begun to drop it.
   */
  ghost predicate Inv(s: State) {
    && LogOk(s.log)
    && (!s.locked ==> forall id :: !Inside(s, id))
    && (s.locked ==> exists id :: Inside(s, id))
    && (forall a, b :: Inside(s, a) && Inside(s, b) ==> a == b)
    && s.owner == (if At(s, Holder(s.log)) != DropLock then Holder(s.log) else 0)
    && (forall id :: At(s, id) == DropOwner || At(s, id) == DropLock ==> Holder(s.log) == id)
    && At(s, Holder(s.log)) != StoreOwner
    && At(s, 0) == Idle
  }

  lemma {:induction false} InitialInv(s: State)
    requires Initial(s)
    ensures Inv(s)
  {
  }

  lemma {:induction false} LogSnoc(log: seq<Event>, e: Event)
    requires LogOk(log) && Right(Holder(log), e)
    ensures LogOk(log + [e])
    ensures Holder(log + [e]) == if e.rc == Ok then (if e.call == TryLock then e.id else 0) else Holder(log)
  {
    var l := log + [e];
    assert l[..|log|] == log;
    forall i | 0 <= i < |l| ensures Right(Holder(l[..i]), l[i]) {
      if i < |log| { assert l[..i] == log[..i]; }
    }
  }

  lemma {:induction false} AtAfter(s: State, r: State, id: nat, pc: Pc)
    requires r.pcs == s.pcs[id := pc]
    ensures forall u :: At(r, u) == if u == id then pc else At(s, u)
  {
  }

  /** A call that returns without success leaves the mutex alone. */
  lemma {:induction false} QuietReturn(s: State, id: nat, call: Call, rc: Rc)
    requires Inv(s) && rc != Ok && Right(Holder(s.log), Event(id, call, rc))
    requires At(s, id) in {Idle, LoadOwner, AskOwner}
    ensures Inv(Return(s, id, call, rc))
  {
    hide LogOk, Holder, Right;
    var r := Return(s, id, call, rc);
    LogSnoc(s.log, Event(id, call, rc));
    AtAfter(s, r, id, Idle);
    SameInside(s, r);
  }

  lemma {:induction false} QuietMove(s: State, id: nat, pc: Pc)
    requires Inv(s) && id != 0 && pc in {Cas, LoadOwner, AskOwner} && At(s, id) in {Idle, Cas}
    ensures Inv(Move(s, id, pc))
  {
    hide LogOk, Holder;
    AtAfter(s, Move(s, id, pc), id, pc);
    SameInside(s, Move(s, id, pc));
  }

  lemma {:induction false} SameInside(s: State, r: State)
    requires Holder(r.log) == Holder(s.log) && r.locked == s.locked && (s.locked ==> exists id :: Inside(s, id))
    requires forall id :: At(r, id) == StoreOwner <==> At(s, id) == StoreOwner
    ensures r.locked ==> exists id :: Inside(r, id)
    ensures forall id :: Inside(r, id) <==> Inside(s, id)
  {
    hide Holder;
    if s.locked {
      var id :| Inside(s, id);
      assert Inside(r, id);
    }
  }

  lemma {:induction false} TakeStep(s: State, id: nat)
    requires Inv(s) && At(s, id) == Cas && !s.locked
    ensures Inv(Step(s, Go(id)))
  {
    hide LogOk, Holder;
    var r := Step(s, Go(id));
    AtAfter(s, r, id, StoreOwner);
    assert !Inside(s, id) && Inside(r, id);
    forall u ensures Inside(r, u) <==> u == id { assert !Inside(s, u); }
  }

  lemma {:induction false} OwnStep(s: State, id: nat)
    requires Inv(s) && At(s, id) == StoreOwner
    ensures Inv(Step(s, Go(id)))
  {
    hide LogOk;
    var r := Step(s, Go(id));
    AtAfter(s, r, id, Idle);
    assert Inside(s, id);
    var e := Event(id, TryLock, Ok);
    forall u ensures Inside(s, u) <==> u == id {}
    assert Holder(s.log) == 0 by { assert Holder(s.log) != 0 ==> Inside(s, Holder(s.log)); }
    LogSnoc(s.log, e);
    hide Holder;
    assert Inside(r, id);
    forall u ensures Inside(r, u) ==> u == id { assert Inside(s, u) ==> u == id; }
    forall u ensures At(r, u) != DropOwner && At(r, u) != DropLock { assert At(s, 0) == Idle; }
  }

  lemma {:induction false} DropOwnerStep(s: State, id: nat)
    requires Inv(s) && At(s, id) == DropOwner
    ensures Inv(Step(s, Go(id)))
  {
    hide LogOk, Holder;
    SameInside(s, Step(s, Go(id)));
  }

  lemma {:induction false} AskStep(s: State, id: nat)
    requires Inv(s) && At(s, id) == AskOwner && s.owner == id && id != 0
    ensures Inv(Step(s, Go(id)))
  {
    hide LogOk, Holder;
    SameInside(s, Step(s, Go(id)));
  }

  lemma {:induction false} DropLockStep(s: State, id: nat)
    requires Inv(s) && At(s, id) == DropLock
    ensures Inv(Step(s, Go(id)))
  {
    hide LogOk, Holder;
    var r := Step(s, Go(id));
    AtAfter(s, r, id, Idle);
    assert Holder(s.log) == id && id != 0;
    assert Inside(s, id);
    LogSnoc(s.log, Event(id, Unlock, Ok));
    forall u ensures !Inside(r, u) { assert Inside(s, u) ==> u == id; }
  }

  /** Every atomic operation of every thread keeps the invariant. */
  lemma {:induction false} StepKeeps(s: State, a: Action)
    requires Inv(s)
    ensures Inv(Step(s, a))
  {
    hide LogOk, Holder;
    var id := a.id;
    match a
    case Begin(_, call) =>
      if At(s, id) == Idle {
        if id == 0 { QuietReturn(s, id, call, Inval); }
        else { QuietMove(s, id, if call == TryLock then Cas else AskOwner); }
      }
    case Go(_) =>
      match At(s, id)
      case Idle =>
      case Cas => if s.locked { QuietMove(s, id, LoadOwner); } else { TakeStep(s, id); }
      case LoadOwner => QuietReturn(s, id, TryLock, if s.owner == id then DeadLk else Busy);
      case StoreOwner => OwnStep(s, id);
      case AskOwner => if s.owner != id { QuietReturn(s, id, Unlock, Perm); } else { AskStep(s, id); }
      case DropOwner => DropOwnerStep(s, id);
      case DropLock => DropLockStep(s, id);
  }

  lemma {:induction false} RunKeeps(s: State, acts: seq<Action>)
    requires Inv(s)
    ensures Inv(Run(s, acts))
    decreases |acts|
  {
    hide Inv, Step;
    if acts != [] {
      StepKeeps(s, acts[0]);
      RunKeeps(Step(s, acts[0]), acts[1..]);
    }
  }

  /**
   Mutual exclusion: in every reachable state at most one thread is past the
   compare-exchange of a try_lock and not past the last store of an unlock, and the lock word
   is set exactly when there is one.
   */
  lemma {:induction false} MutualExclusion(s0: State, acts: seq<Action>, a: nat, b: nat)
    requires Initial(s0)
    ensures var s := Run(s0, acts);
            && (Inside(s, a) && Inside(s, b) ==> a == b)
            && (s.locked <==> exists id :: Inside(s, id))
  {
    hide Run, LogOk, Holder;
    InitialInv(s0);
    RunKeeps(s0, acts);
  }

  /**
   Every call of every run returns the right thing: unlock succeeds for the holder and for
   no one else, EDEADLK goes exactly to a caller that holds the mutex, and try_lock
   succeeds only when nobody holds it. So successful locks and unlocks alternate.
   */
  lemma {:induction false} CallsAreRight(s0: State, acts: seq<Action>, i: nat)
    requires Initial(s0) && i < |Run(s0, acts).log|
    ensures var log := Run(s0, acts).log; Right(Holder(log[..i]), log[i])
  {
    hide Run, Right, Holder;
    InitialInv(s0);
    RunKeeps(s0, acts);
  }

  /** If nobody is inside, the next compare-exchange succeeds: the mutex is never lost. */
  lemma {:induction false} FreeIsTakeable(s0: State, acts: seq<Action>, id: nat)
    requires Initial(s0) && At(Run(s0, acts), id) == Cas
    ensures At(Step(Run(s0, acts), Go(id)), id) == StoreOwner <==> forall u :: !Inside(Run(s0, acts), u)
  {
    hide Run, LogOk, Holder;
    InitialInv(s0);
    RunKeeps(s0, acts);
  }

  // ---------- calls return ----------

  /** The most operations a thread has left in its call. */
  function Left(pc: Pc): nat {
    match pc
    case Idle => 0
    case LoadOwner | StoreOwner | DropLock => 1
    case Cas | DropOwner => 2
    case AskOwner => 3
  }

  /** Some call of thread id has returned after the first n. */
  ghost predicate ReturnedSince(log: seq<Event>, n: nat, id: nat) {
    exists i :: n <= i < |log| && log[i].id == id
  }

  /** An operation of another thread leaves this one where it is; its own brings it nearer its return. */
  lemma {:induction false} StepNearer(s: State, a: Action, id: nat)
    requires At(s, id) != Idle
    ensures var r := Step(s, a);
            && s.log <= r.log
            && (a != Go(id) ==> At(r, id) == At(s, id))
            && (a == Go(id) ==> Left(At(r, id)) < Left(At(s, id)))
            && (a == Go(id) && At(r, id) == Idle ==> ReturnedSince(r.log, |s.log|, id))
  {
    var r := Step(s, a);
    if a == Go(id) && At(r, id) == Idle { assert r.log[|s.log|].id == id; }
  }

  lemma {:induction false} LogGrows(s: State, acts: seq<Action>)
    ensures s.log <= Run(s, acts).log
    decreases |acts|
  {
    if acts != [] { LogGrows(Step(s, acts[0]), acts[1..]); }
  }

  lemma {:induction false} LeftReturns(s: State, acts: seq<Action>, id: nat)
    requires At(s, id) != Idle && multiset(acts)[Go(id)] >= Left(At(s, id))
    ensures ReturnedSince(Run(s, acts).log, |s.log|, id)
    decreases |acts|
  {
    hide Step, At, Left;
    assert Left(At(s, id)) > 0 by { LeftPositive(At(s, id)); }
    var r, rest := Step(s, acts[0]), acts[1..];
    assert acts == [acts[0]] + rest;
    StepNearer(s, acts[0], id);
    LogGrows(r, rest);
    if At(r, id) == Idle {
      var i :| |s.log| <= i < |r.log| && r.log[i].id == id;
      assert Run(r, rest).log[i].id == id;
    } else {
      LeftReturns(r, rest, id);
      var i :| |r.log| <= i < |Run(r, rest).log| && Run(r, rest).log[i].id == id;
      assert Run(s, acts).log[i].id == id;
    }
  }

  lemma {:induction false} LeftPositive(pc: Pc)
    requires pc != Idle
    ensures 0 < Left(pc) <= 3
  {
  }

  /** No call waits: it has returned once its thread has done three operations, whatever the others do. */
  lemma {:induction false} CallReturns(s: State, acts: seq<Action>, id: nat)
    requires At(s, id) != Idle && multiset(acts)[Go(id)] >= 3
    ensures exists i :: |s.log| <= i < |Run(s, acts).log| && Run(s, acts).log[i].id == id
  {
    hide Run, Left, At;
    LeftPositive(At(s, id));
    LeftReturns(s, acts, id);
  }

  /** A free mutex is taken; the taker is the owner. */
  lemma {:induction false} LockAlone(s: State, id: nat)
    requires id != 0 && At(s, id) == Idle && !s.locked
    ensures var r := Run(s, [Begin(id, TryLock), Go(id), Go(id)]);
            r.log == s.log + [Event(id, TryLock, Ok)] && r.locked && r.owner == id && At(r, id) == Idle
  {
    hide Run;
    RunThree(s, Begin(id, TryLock), Go(id), Go(id));
  }

  /** A taken mutex answers EDEADLK to its owner and EBUSY to others, and stays as it is. */
  lemma {:induction false} LockTaken(s: State, id: nat)
    requires id != 0 && At(s, id) == Idle && s.locked
    ensures var r := Run(s, [Begin(id, TryLock), Go(id), Go(id)]);
            && r.log == s.log + [Event(id, TryLock, if s.owner == id then DeadLk else Busy)]
            && r.locked && r.owner == s.owner
  {
    hide Run;
    RunThree(s, Begin(id, TryLock), Go(id), Go(id));
  }

  /** unlock frees the mutex of its owner and is EPERM for others, who change nothing. */
  lemma {:induction false} UnlockAlone(s: State, id: nat)
    requires id != 0 && At(s, id) == Idle
    ensures var r := Run(s, [Begin(id, Unlock), Go(id), Go(id), Go(id)]);
            if s.owner == id then r.log == s.log + [Event(id, Unlock, Ok)] && !r.locked && r.owner == 0
            else r.log == s.log + [Event(id, Unlock, Perm)] && r.locked == s.locked && r.owner == s.owner
  {
    hide Run;
    RunThree(s, Begin(id, Unlock), Go(id), Go(id));
    RunLast(s, [Begin(id, Unlock), Go(id), Go(id)], Go(id));
    assert [Begin(id, Unlock), Go(id), Go(id)] + [Go(id)] == [Begin(id, Unlock), Go(id), Go(id), Go(id)];
  }

  lemma {:induction false} RunLast(s: State, acts: seq<Action>, a: Action)
    ensures Run(s, acts + [a]) == Step(Run(s, acts), a)
    decreases |acts|
  {
    hide Step;
    if acts == [] {
      assert acts + [a] == [a] && [a][1..] == [];
      assert Run(Step(s, a), []) == Step(s, a);
    } else {
      assert (acts + [a])[1..] == acts[1..] + [a];
      RunLast(Step(s, acts[0]), acts[1..], a);
    }
  }

  lemma {:induction false} RunThree(s: State, a: Action, b: Action, c: Action)
    ensures Run(s, [a, b, c]) == Step(Step(Step(s, a), b), c)
  {
    hide Step;
    assert [] + [a] == [a] && [a] + [b] == [a, b] && [a, b] + [c] == [a, b, c];
    assert Run(s, []) == s;
    RunLast(s, [], a);
    RunLast(s, [a], b);
    RunLast(s, [a, b], c);
  }
}
