/**
 The lock-order checker (kernel/sync/lockdep.c): each thread's stack of held lock classes.
 */
module Lockdep {
  import opened Words

  const MAX_HELD: nat := 16

  datatype Rc = Ok | Inval | Busy | Perm | DeadLk | Overflow

  /** A thread's stack of held classes, oldest first, and its count of refused requests. */
  datatype Dep = Dep(stack: seq<nat>, violations: nat)

  predicate Ascending(s: seq<nat>) {
    forall i, j :: 0 <= i < j < |s| ==> s[i] < s[j]
  }

  /** What every sequence of calls keeps. */
  predicate DepOk(d: Dep) {
    |d.stack| <= MAX_HELD && Ascending(d.stack) && forall i :: 0 <= i < |d.stack| ==> d.stack[i] != 0
  }

  function Refused(d: Dep): Dep { d.(violations := (d.violations + 1) % U32) }

  /** mcs_lockdep_before_acquire */
  function BeforeAcquire(d: Dep, cls: nat): (Dep, Rc) {
    var n := |d.stack|;
    if cls == 0 then (d, Inval)
    else if n >= MAX_HELD then (Refused(d), Overflow)
    else if cls in d.stack then (Refused(d), DeadLk)
    else if n > 0 && cls < d.stack[n - 1] then (Refused(d), DeadLk)
    else (d.(stack := d.stack + [cls]), Ok)
  }

  /** mcs_lockdep_after_release */
  function AfterRelease(d: Dep, cls: nat): (Dep, Rc) {
    var n := |d.stack|;
    if cls == 0 then (d, Inval)
    else if n == 0 then (Refused(d), Perm)
    else if d.stack[n - 1] != cls then (Refused(d), DeadLk)
    else (d.(stack := d.stack[..n - 1]), Ok)
  }

  /** A request is granted exactly when it goes strictly up from everything held and there is room. */
  lemma {:induction false} BeforeAcquireIff(d: Dep, cls: nat)
    requires DepOk(d)
    ensures var (e, rc) := BeforeAcquire(d, cls);
            && DepOk(e)
            && (rc == Ok <==> cls != 0 && |d.stack| < MAX_HELD && forall i :: 0 <= i < |d.stack| ==> d.stack[i] < cls)
            && e.stack == (if rc == Ok then d.stack + [cls] else d.stack)
            && (rc == DeadLk <==>
                  cls != 0 && |d.stack| < MAX_HELD && exists i :: 0 <= i < |d.stack| && cls <= d.stack[i])
  {
    var n := |d.stack|;
    if n > 0 && cls < d.stack[n - 1] { assert cls <= d.stack[n - 1]; }
    if cls in d.stack {
      var i :| 0 <= i < n && d.stack[i] == cls;
      assert cls <= d.stack[i];
    }
  }

  /** A release is accepted exactly for the most recently acquired class, and undoes its acquisition. */
  lemma {:induction false} AfterReleaseIff(d: Dep, cls: nat)
    requires DepOk(d)
    ensures var (e, rc) := AfterRelease(d, cls);
            && DepOk(e) && (rc == Ok <==> |d.stack| > 0 && d.stack[|d.stack| - 1] == cls)
            && d.stack == (if rc == Ok then e.stack + [cls] else e.stack)
    ensures BeforeAcquire(d, cls).1 == Ok ==> AfterRelease(BeforeAcquire(d, cls).0, cls) == (d, Ok)
  {
    var n := |d.stack|;
    if n > 0 { assert d.stack == d.stack[..n - 1] + [d.stack[n - 1]]; }
    assert (d.stack + [cls])[..n] == d.stack;
  }

  /** The stack is left alone, and one more violation is on record. */
  predicate CountedOne(d: Dep, e: Dep) {
    e.stack == d.stack && e.violations == (d.violations + 1) % 0x1_0000_0000
  }

  /** Every reply of before_acquire: class 0, a full stack of 16, a class not above all held, or granted. */
  lemma {:induction false} BeforeAcquireSays(d: Dep, cls: nat)
    requires DepOk(d)
    ensures var (e, rc) := BeforeAcquire(d, cls);
            if cls == 0 then rc == Inval && e == d
            else if |d.stack| == 16 then rc == Overflow && CountedOne(d, e)
            else if exists i :: 0 <= i < |d.stack| && cls <= d.stack[i] then rc == DeadLk && CountedOne(d, e)
            else rc == Ok && e == Dep(d.stack + [cls], d.violations)
  {
    BeforeAcquireIff(d, cls);
  }

  /** Every reply of after_release: class 0, nothing held, not the newest held, or accepted. */
  lemma {:induction false} AfterReleaseSays(d: Dep, cls: nat)
    requires DepOk(d)
    ensures var (e, rc) := AfterRelease(d, cls);
            if cls == 0 then rc == Inval && e == d
            else if |d.stack| == 0 then rc == Perm && CountedOne(d, e)
            else if cls != d.stack[|d.stack| - 1] then rc == DeadLk && CountedOne(d, e)
            else rc == Ok && e.stack + [cls] == d.stack && e.violations == d.violations
  {
    AfterReleaseIff(d, cls);
  }

  // ---------- every run of one thread ----------

  datatype Request = Before(cls: nat) | After(cls: nat)

  function Ask(d: Dep, q: Request): (Dep, Rc) {
    match q
    case Before(cls) => BeforeAcquire(d, cls)
    case After(cls) => AfterRelease(d, cls)
  }

  function AskAll(d: Dep, qs: seq<Request>): (r: (Dep, seq<Rc>))
    decreases |qs|
  {
    if qs == [] then (d, [])
    else
      var (e, rc) := Ask(d, qs[0]);
      var (f, rcs) := AskAll(e, qs[1..]);
      (f, [rc] + rcs)
  }

  /** How many replies report a violation. */
  function Violations(rcs: seq<Rc>): nat
    decreases |rcs|
  {
    if rcs == [] then 0 else (if rcs[0] in {Overflow, Perm, DeadLk} then 1 else 0) + Violations(rcs[1..])
  }

  /**
   Over every run of requests the stack stays strictly ascending and at most 16 deep, and the count
   rises by exactly the number of replies that report a violation.
   */
  lemma {:induction false} RunCounts(d: Dep, qs: seq<Request>)
    requires DepOk(d) && d.violations < U32
    ensures var (e, rcs) := AskAll(d, qs);
            DepOk(e) && |rcs| == |qs| && e.violations == (d.violations + Violations(rcs)) % U32
    decreases |qs|
  {
    hide DepOk, Ask;
    if qs != [] {
      AskCounts(d, qs[0]);
      var (e, rc) := Ask(d, qs[0]);
      RunCounts(e, qs[1..]);
      var (f, rcs) := AskAll(e, qs[1..]);
      assert ([rc] + rcs)[1..] == rcs;
      WrapOnce(d.violations, Violations(rcs));
    }
  }

  lemma {:induction false} AskCounts(d: Dep, q: Request)
    requires DepOk(d) && d.violations < U32
    ensures var (e, rc) := Ask(d, q);
            DepOk(e) && e.violations == (d.violations + if rc in {Overflow, Perm, DeadLk} then 1 else 0) % U32
  {
    hide DepOk, BeforeAcquire, AfterRelease;
    BeforeAcquireIff(d, q.cls);
    BeforeAcquireSays(d, q.cls);
    AfterReleaseIff(d, q.cls);
    AfterReleaseSays(d, q.cls);
  }

  lemma {:induction false} WrapOnce(a: nat, n: nat)
    ensures ((a + 1) % U32 + n) % U32 == (a + 1 + n) % U32
  {
  }

  // ---------- the imperative form ----------

  class LockdepState {
    const heldClass: array<nat>
    var depth: nat
    var violations: nat

    ghost predicate Valid()
      reads this
    {
      heldClass.Length == MAX_HELD && depth <= MAX_HELD
    }

    ghost function Model(): Dep
      requires Valid()
      reads this, heldClass
    {
      Dep(heldClass[..depth], violations)
    }

    /** mcs_lockdep_init */
    constructor ()
      ensures Valid() && fresh(heldClass) && Model() == Dep([], 0) && DepOk(Model())
    {
      heldClass := new nat[MAX_HELD](i => 0);
      depth := 0;
      violations := 0;
    }

    /** mcs_lockdep_is_held */
    method IsHeld(cls: nat) returns (held: bool)
      requires Valid()
      ensures held <==> cls != 0 && cls in Model().stack
    {
      if cls == 0 { return false; }
      var i := 0;
      while i < depth && i < MAX_HELD
        invariant 0 <= i <= depth && cls !in heldClass[..i]
      {
        if heldClass[i] == cls { return true; }
        i := i + 1;
      }
      return false;
    }

    /** mcs_lockdep_before_acquire */
    method Before(cls: nat) returns (rc: Rc)
      requires Valid()
      modifies this, heldClass
      ensures Valid() && (Model(), rc) == BeforeAcquire(old(Model()), cls)
    {
      if cls == 0 { return Inval; }
      if depth >= MAX_HELD {
        violations := (violations + 1) % U32;
        return Overflow;
      }
      var i := 0;
      while i < depth
        invariant 0 <= i <= depth && cls !in heldClass[..i] && Valid() && Model() == old(Model())
      {
        if heldClass[i] == cls {
          violations := (violations + 1) % U32;
          return DeadLk;
        }
        i := i + 1;
      }
      if depth > 0 {
        var top := heldClass[depth - 1];
        if cls < top {
          violations := (violations + 1) % U32;
          return DeadLk;
        }
      }
      heldClass[depth] := cls;
      depth := depth + 1;
      assert heldClass[..depth] == old(heldClass[..depth]) + [cls];
      return Ok;
    }

    /** mcs_lockdep_after_release */
    method After(cls: nat) returns (rc: Rc)
      requires Valid()
      modifies this, heldClass
      ensures Valid() && (Model(), rc) == AfterRelease(old(Model()), cls)
    {
      if cls == 0 { return Inval; }
      if depth == 0 {
        violations := (violations + 1) % U32;
        return Perm;
      }
      var index := depth - 1;
      if heldClass[index] != cls {
        violations := (violations + 1) % U32;
        return DeadLk;
      }
      heldClass[index] := 0;
      depth := depth - 1;
      assert heldClass[..depth] == old(heldClass[..depth])[..index];
      return Ok;
    }
  }
}
