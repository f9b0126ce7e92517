/**
 The round-robin scheduler of kernel/mcsos_thread.c as a running thread and a FIFO queue.
 */
module Scheduler {

  datatype Sched<T> = Sched(current: T, queue: seq<T>)

  /** mcsos_sched_enqueue */
  function Enqueue<T>(s: Sched<T>, t: T): Sched<T> { s.(queue := s.queue + [t]) }

  /** mcsos_sched_yield; with nothing ready it fails and changes nothing */
  function Yield<T>(s: Sched<T>): (Sched<T>, bool) {
    if s.queue == [] then (s, false) else (Sched(s.queue[0], s.queue[1..] + [s.current]), true)
  }

  datatype Op<T> = DoEnqueue(thread: T) | DoYield

  function Perform<T>(s: Sched<T>, op: Op<T>): Sched<T> {
    match op
    case DoEnqueue(t) => Enqueue(s, t)
    case DoYield => Yield(s).0
  }

  function Run<T>(s: Sched<T>, ops: seq<Op<T>>): Sched<T>
    decreases |ops|
  {
    if ops == [] then s else Run(Perform(s, ops[0]), ops[1..])
  }

  function Yields<T>(ops: seq<Op<T>>): nat {
    if ops == [] then 0 else (if ops[0].DoYield? then 1 else 0) + Yields(ops[1..])
  }

  /** The running thread followed by the queue: the order in which threads run. */
  function Line<T>(s: Sched<T>): seq<T> { [s.current] + s.queue }

  predicate Distinct<T(==)>(q: seq<T>) {
    forall i, j :: 0 <= i < j < |q| ==> q[i] != q[j]
  }

  /** Nothing occurs twice. */
  lemma {:induction false} DistinctIs<T>(q: seq<T>)
    ensures Distinct(q) <==> forall x :: x in q ==> multiset(q)[x] == 1
  {
    if q != [] {
      var init, x := q[..|q| - 1], q[|q| - 1];
      DistinctIs(init);
      assert q == init + [x];
      assert Distinct(q) <==> Distinct(init) && x !in init by { DistinctSnoc(init, x); }
      assert forall y :: multiset(q)[y] == multiset(init)[y] + if y == x then 1 else 0;
      if Distinct(q) {
        forall y | y in q ensures multiset(q)[y] == 1 { assert y in init <==> y != x; }
      } else if x !in init {
        var y :| y in init && multiset(init)[y] != 1;
        assert y in q && multiset(q)[y] != 1;
      } else {
        assert x in q && multiset(q)[x] != 1;
      }
    }
  }

  lemma {:induction false} DistinctSnoc<T>(q: seq<T>, x: T)
    ensures Distinct(q + [x]) <==> Distinct(q) && x !in q
  {
    var r := q + [x];
    if Distinct(r) {
      forall i, j | 0 <= i < j < |q| ensures q[i] != q[j] { assert r[i] != r[j]; }
      forall i | 0 <= i < |q| ensures q[i] != x { assert r[i] != r[|q|]; }
    }
  }

  /** Only threads that are neither running nor queued are enqueued. */
  predicate Admissible<T(==)>(s: Sched<T>, ops: seq<Op<T>>)
    decreases |ops|
  {
    ops == [] || ((ops[0].DoEnqueue? ==> ops[0].thread !in Line(s)) && Admissible(Perform(s, ops[0]), ops[1..]))
  }

  /** No thread is ever in two places, whatever is enqueued and however often the CPU is yielded. */
  lemma {:induction false} RunDistinct<T>(s: Sched<T>, ops: seq<Op<T>>)
    requires Distinct(Line(s)) && Admissible(s, ops)
    ensures Distinct(Line(Run(s, ops)))
    ensures multiset(Line(s)) <= multiset(Line(Run(s, ops)))
    decreases |ops|
  {
    if ops != [] {
      var r := Perform(s, ops[0]);
      if ops[0].DoEnqueue? {
        assert Line(r) == Line(s) + [ops[0].thread];
      } else {
        YieldRotates(s);
      }
      RunDistinct(r, ops[1..]);
    }
  }

  /** A yield moves the running thread to the end of the line, and does nothing else. */
  lemma {:induction false} YieldRotates<T>(s: Sched<T>)
    ensures Line(Yield(s).0) == Line(s)[1..] + [Line(s)[0]] && (Yield(s).1 <==> |s.queue| > 0)
    ensures multiset(Line(Yield(s).0)) == multiset(Line(s))
    ensures Distinct(Line(s)) ==> Distinct(Line(Yield(s).0))
  {
    hide Distinct;
    var l := Line(s);
    assert Line(Yield(s).0) == l[1..] + [l[0]];
    assert l == [l[0]] + l[1..];
    Rotated(l);
  }

  lemma {:induction false} Rotated<T>(l: seq<T>)
    requires l != []
    ensures Distinct(l) ==> Distinct(l[1..] + [l[0]])
  {
    var m := l[1..] + [l[0]];
    assert forall i :: 0 <= i < |m| ==> m[i] == if i < |l| - 1 then l[i + 1] else l[0];
  }

  // ---------- bounded waiting ----------

  /**
   A thread at position k moves up one place at each yield, whatever is enqueued meanwhile:
   after y <= k yields it is at position k - y.
   */
  lemma {:induction false} MovesUp<T>(s: Sched<T>, ops: seq<Op<T>>, k: nat)
    requires k < |s.queue| && Yields(ops) <= k
    ensures k - Yields(ops) < |Run(s, ops).queue| && Run(s, ops).queue[k - Yields(ops)] == s.queue[k]
    decreases |ops|
  {
    if ops != [] {
      var r := Perform(s, ops[0]);
      if ops[0].DoYield? {
        assert r.queue[k - 1] == s.queue[k];
        MovesUp(r, ops[1..], k - 1);
      } else {
        MovesUp(r, ops[1..], k);
      }
    }
  }

  lemma {:induction false} RunConcat<T>(s: Sched<T>, a: seq<Op<T>>, b: seq<Op<T>>)
    ensures Run(s, a + b) == Run(Run(s, a), b)
    decreases |a|
  {
    if a == [] {
      assert a + b == b;
    } else {
      assert (a + b)[0] == a[0] && (a + b)[1..] == a[1..] + b;
      RunConcat(Perform(s, a[0]), a[1..], b);
    }
  }

  lemma {:induction false} OnlyEnqueues<T>(s: Sched<T>, ops: seq<Op<T>>)
    requires Yields(ops) == 0
    ensures Run(s, ops).current == s.current
    decreases |ops|
  {
    if ops != [] { OnlyEnqueues(Perform(s, ops[0]), ops[1..]); }
  }

  /**
   Bounded waiting: a thread at position k becomes current on exactly the (k+1)-th later
   yield. Until then it is queued and not running; from then until the next yield it runs.
   */
  lemma {:induction false} RunsAfterExactly<T>(s: Sched<T>, before: seq<Op<T>>, after: seq<Op<T>>, k: nat)
    requires Distinct(Line(s)) && k < |s.queue| && Yields(before) == k && Yields(after) == 0
    requires Admissible(s, before)
    ensures Run(s, before + [DoYield] + after).current == s.queue[k]
    ensures Run(s, before).current != s.queue[k]
  {
    MovesUp(s, before, k);
    var b := Run(s, before);
    RunDistinct(s, before);
    assert Line(b)[0] == b.current && Line(b)[1] == s.queue[k];
    var one: seq<Op<T>> := [DoYield];
    RunConcat(s, before, one);
    RunConcat(s, before + one, after);
    var c := Run(s, before + one);
    assert one[1..] == [];
    assert c == Perform(b, DoYield) by { assert Run(b, one) == Run(Perform(b, DoYield), []); }
    OnlyEnqueues(c, after);
  }

  /** While a thread is still waiting its turn, it is not the one running. */
  lemma {:induction false} NotBefore<T>(s: Sched<T>, ops: seq<Op<T>>, k: nat)
    requires Distinct(Line(s)) && k < |s.queue| && Yields(ops) <= k && Admissible(s, ops)
    ensures Run(s, ops).current != s.queue[k] && s.queue[k] in Run(s, ops).queue
  {
    MovesUp(s, ops, k);
    RunDistinct(s, ops);
    var r := Run(s, ops);
    assert Line(r)[0] == r.current && Line(r)[k - Yields(ops) + 1] == s.queue[k];
  }

  // ---------- a full turn ----------

  function YieldTimes<T>(s: Sched<T>, m: nat): Sched<T> {
    if m == 0 then s else Yield(YieldTimes(s, m - 1)).0
  }

  /** After m yields, at most a full turn, the first m of the line have gone to its end in order. */
  lemma {:induction false} Rotation<T>(s: Sched<T>, m: nat)
    requires m <= |Line(s)|
    ensures Line(YieldTimes(s, m)) == Line(s)[m..] + Line(s)[..m]
    decreases m
  {
    if m > 0 {
      var l := Line(s);
      Rotation(s, m - 1);
      YieldRotates(YieldTimes(s, m - 1));
      Turn(l, m);
    }
  }

  lemma {:induction false} Turn<T>(l: seq<T>, m: nat)
    requires 0 < m <= |l|
    ensures var k := l[m - 1..] + l[..m - 1]; k[1..] + [k[0]] == l[m..] + l[..m]
  {
    var k := l[m - 1..] + l[..m - 1];
    assert k[0] == l[m - 1];
    assert k[1..] == l[m..] + l[..m - 1];
    assert l[..m] == l[..m - 1] + [l[m - 1]];
  }

  /** With n threads queued, n + 1 yields bring back the starting order. */
  lemma {:induction false} FullTurn<T>(s: Sched<T>)
    ensures YieldTimes(s, |s.queue| + 1) == s
  {
    var n := |Line(s)|;
    var r := YieldTimes(s, n);
    Rotation(s, n);
    assert Line(r) == Line(s);
    assert r.current == Line(r)[0] && s.current == Line(s)[0];
    assert r.queue == Line(r)[1..] && s.queue == Line(s)[1..];
  }
}
