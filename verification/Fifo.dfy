/** Allocation algorithm 2, "oldest released first", is a first-in first-out queue. */
module Fifo {
  import opened Basics
  import opened Pool
  import opened PoolRuns

  /** When index i was last released. */
  function Since(p: PoolState, i: nat): int {
    if i in p.released then p.released[i] else 0
  }

  /** q lists the free indexes, oldest release first. */
  ghost predicate Represents(p: PoolState, q: seq<nat>) {
    && (forall i :: i in q <==> i in p.free)
    && (forall a, b :: 0 <= a < b < |q| ==> Since(p, q[a]) < Since(p, q[b]))
  }

  /** A free reads the clock, and the reading is later than all before. */
  ghost predicate LaterThanAll(p: PoolState, op: Op) {
    op.Free? ==> forall j :: j in p.released ==> Since(p, j) < op.now
  }

  /** A run of a pool using algorithm 2 under a strictly increasing clock. */
  ghost predicate FifoRun(ps: seq<PoolState>, ops: seq<Op>) {
    && Run(ps, ops)
    && ps[0].algorithm == 2
    && forall n {:trigger ops[n]} :: 0 <= n < |ops| ==> LaterThanAll(ps[n], ops[n])
  }

  /** The queue without index i. */
  function Without(q: seq<nat>, i: nat): seq<nat> {
    if q == [] then [] else if q[0] == i then q[1..] else [q[0]] + Without(q[1..], i)
  }

  /** What each pool operation does to the queue: frees enter at the tail, allocations leave at
      the head, reservations are cut out of the middle. */
  function Queue(q: seq<nat>, op: Op, capacity: nat): seq<nat> {
    match op
    case Reserve(i, _) => Without(q, i)
    case Free(i, _) => if i < capacity && i !in q then q + [i] else q
    case GetFree(_, _) => if q == [] then q else q[1..]
  }

  function QueueAt(q: seq<nat>, ops: seq<Op>, n: nat, capacity: nat): seq<nat>
    requires n <= |ops|
  {
    if n == 0 then q else Queue(QueueAt(q, ops, n - 1, capacity), ops[n - 1], capacity)
  }

  lemma {:induction false} WithoutAbsent(q: seq<nat>, i: nat)
    requires i !in q
    ensures Without(q, i) == q
  {
    if q != [] {
      WithoutAbsent(q[1..], i);
    }
  }

  lemma {:induction false} WithoutSplits(q: seq<nat>, k: nat)
    requires k < |q| && forall a :: 0 <= a < k ==> q[a] != q[k]
    ensures Without(q, q[k]) == q[..k] + q[k + 1..]
  {
    if k > 0 {
      WithoutSplits(q[1..], k - 1);
      assert q[1..][k - 1] == q[k];
      assert q[..k] + q[k + 1..] == [q[0]] + (q[1..][..k - 1] + q[1..][k..]);
    }
  }

  /** A new pool with a strictly increasing clock is the queue 0, 1, ..., capacity-1. */
  lemma NewRepresents(capacity: nat, clock: nat -> int)
    requires forall i: nat, j: nat :: i < j ==> clock(i) < clock(j)
    ensures Represents(New(capacity, 2, clock), seq(capacity, i => i))
  {
    var p, q := New(capacity, 2, clock), seq(capacity, i => i);
    forall i: int
      ensures i in q <==> i in p.free
    {
      if i in p.free {
        assert q[i] == i;
      }
    }
  }

  lemma RepresentsDistinct(p: PoolState, q: seq<nat>)
    requires Represents(p, q)
    ensures Distinct(q) && Elements(q) == p.free && |q| == |p.free|
  {
    forall i, j | 0 <= i < j < |q|
      ensures q[i] != q[j]
    {
      assert Since(p, q[i]) < Since(p, q[j]);
    }
    DistinctSize(q);
    forall i
      ensures i in Elements(q) <==> i in p.free
    {
      assert i in Elements(q) <==> i in q;
    }
  }

  /** At most one queue represents a pool. */
  lemma {:induction false} QueueIsUnique(p: PoolState, q: seq<nat>, r: seq<nat>)
    requires Represents(p, q) && Represents(p, r)
    ensures q == r
  {
    RepresentsDistinct(p, q);
    RepresentsDistinct(p, r);
    var n := 0;
    while n < |q|
      invariant 0 <= n <= |q| == |r|
      invariant forall k :: 0 <= k < n ==> q[k] == r[k]
    {
      SameNext(p, q, r, n);
      SameNext(p, r, q, n);
      n := n + 1;
    }
  }

  lemma SameNext(p: PoolState, q: seq<nat>, r: seq<nat>, n: nat)
    requires Represents(p, q) && Represents(p, r) && n < |q| == |r|
    requires forall k :: 0 <= k < n ==> q[k] == r[k]
    ensures Since(p, q[n]) >= Since(p, r[n])
    ensures Since(p, q[n]) == Since(p, r[n]) ==> q[n] == r[n]
  {
    assert q[n] in r;
    var a :| 0 <= a < |r| && r[a] == q[n];
    assert a >= n;
    assert n < a ==> Since(p, r[n]) < Since(p, r[a]);
  }

  /** One operation of the pool is one operation of the queue; an allocation can only pick the head. */
  lemma StepRefines(p: PoolState, q: seq<nat>, op: Op)
    requires p.Valid() && p.algorithm == 2 && Represents(p, q) && Legal(p, op) && LaterThanAll(p, op)
    ensures Represents(Do(p, op), Queue(q, op, p.capacity))
    ensures op.GetFree? && q != [] ==> op.pick == q[0]
  {
    match op
    case Reserve(i, m) => ReserveRefines(p, q, i, m);
    case Free(i, now) => FreeRefines(p, q, i, now);
    case GetFree(m, pick) => TakeRefines(p, q, pick, m);
  }

  lemma TakeRefines(p: PoolState, q: seq<nat>, pick: nat, m: Mac)
    requires p.Valid() && p.algorithm == 2 && Represents(p, q) && Legal(p, GetFree(m, pick))
    ensures Represents(Do(p, GetFree(m, pick)), if q == [] then q else q[1..])
    ensures q != [] ==> pick == q[0]
  {
    if q == [] {
      assert p.free == {};
    } else {
      assert q[0] in q;
      HeadIsPicked(p, q, pick);
      HeadRepresents(p, q, m);
    }
  }

  lemma HeadRepresents(p: PoolState, q: seq<nat>, m: Mac)
    requires p.Valid() && Represents(p, q) && q != []
    ensures Represents(p.Taken(q[0], m), q[1..])
  {
  }

  lemma HeadIsPicked(p: PoolState, q: seq<nat>, pick: nat)
    requires p.Valid() && p.algorithm == 2 && Represents(p, q) && p.MayPick(pick) && q != []
    ensures pick == q[0]
  {
    assert q[0] in q;
    assert pick in q;
    var a :| 0 <= a < |q| && q[a] == pick;
    assert a > 0 ==> Since(p, q[0]) < Since(p, q[a]);
  }

  lemma ReserveRefines(p: PoolState, q: seq<nat>, i: nat, m: Mac)
    requires p.Valid() && Represents(p, q)
    ensures Represents(p.Reserve(i, m), Without(q, i))
  {
    if i in q {
      var k :| 0 <= k < |q| && q[k] == i;
      forall a | 0 <= a < k
        ensures q[a] != q[k]
      {
        assert Since(p, q[a]) < Since(p, q[k]);
      }
      WithoutSplits(q, k);
      CutRepresents(p, q, k, m, Without(q, i));
    } else {
      WithoutAbsent(q, i);
    }
  }

  lemma FreeRefines(p: PoolState, q: seq<nat>, i: nat, now: int)
    requires p.Valid() && Represents(p, q)
    requires forall j :: j in p.released ==> Since(p, j) < now
    ensures Represents(p.Free(i, now), if i < p.capacity && i !in q then q + [i] else q)
  {
    if i < p.capacity && i !in q {
      var p', r := p.Free(i, now), q + [i];
      forall a, b | 0 <= a < b < |r|
        ensures Since(p', r[a]) < Since(p', r[b])
      {
        assert r[a] == q[a] && q[a] in q;
        if b < |q| {
          assert r[b] == q[b] && q[b] in q;
        }
      }
    }
  }

  lemma CutRepresents(p: PoolState, q: seq<nat>, k: nat, m: Mac, r: seq<nat>)
    requires p.Valid() && Represents(p, q) && k < |q| && r == q[..k] + q[k + 1..]
    ensures Represents(p.Taken(q[k], m), r)
  {
  }

  /** Every run of the pool under algorithm 2 is a run of the queue. */
  lemma {:induction false} RunRefines(ps: seq<PoolState>, q: seq<nat>, ops: seq<Op>, n: nat)
    requires FifoRun(ps, ops) && Represents(ps[0], q) && n <= |ops|
    ensures Represents(ps[n], QueueAt(q, ops, n, ps[0].capacity))
  {
    if n > 0 {
      RunRefines(ps, q, ops, n - 1);
      PartitionInvariant(ps, ops, n - 1);
      assert ps[n] == Do(ps[n - 1], ops[n - 1]) && Legal(ps[n - 1], ops[n - 1]) && LaterThanAll(ps[n - 1], ops[n - 1]);
      StepRefines(ps[n - 1], QueueAt(q, ops, n - 1, ps[0].capacity), ops[n - 1]);
    }
  }

  /** Every allocation in such a run hands out the head of the queue. */
  lemma RunPicksHead(ps: seq<PoolState>, q: seq<nat>, ops: seq<Op>, n: nat)
    requires FifoRun(ps, ops) && Represents(ps[0], q) && n < |ops|
    requires ops[n].GetFree? && QueueAt(q, ops, n, ps[0].capacity) != []
    ensures ops[n].pick == QueueAt(q, ops, n, ps[0].capacity)[0]
  {
    RunRefines(ps, q, ops, n);
    PartitionInvariant(ps, ops, n);
    assert Legal(ps[n], ops[n]);
    TakeRefines(ps[n], QueueAt(q, ops, n, ps[0].capacity), ops[n].pick, ops[n].mac);
  }

  /** How many of the first n operations asked for a free index. */
  function Asked(ops: seq<Op>, n: nat): nat
    requires n <= |ops|
  {
    if n == 0 then 0 else Asked(ops, n - 1) + if ops[n - 1].GetFree? then 1 else 0
  }

  /** One of the first n operations handed out i. */
  ghost predicate HandedOut(ops: seq<Op>, n: nat, i: nat)
    requires n <= |ops|
  {
    exists k :: 0 <= k < n && ops[k].GetFree? && ops[k].pick == i
  }

  /** Where an entry of the queue goes: an allocation moves it one place forward or hands it out. */
  lemma QueueMoves(q: seq<nat>, op: Op, capacity: nat, a: nat) returns (b: nat)
    requires Distinct(q) && a < |q|
    requires op.Reserve? ==> op.index != q[a]
    requires op.GetFree? ==> a > 0
    ensures b <= a && (op.GetFree? ==> b < a)
    ensures b < |Queue(q, op, capacity)| && Queue(q, op, capacity)[b] == q[a]
  {
    match op
    case Reserve(j, _) =>
      if j in q {
        var k :| 0 <= k < |q| && q[k] == j;
        WithoutSplits(q, k);
        b := if a < k then a else a - 1;
      } else {
        WithoutAbsent(q, j);
        b := a;
      }
    case Free(j, _) => b := a;
    case GetFree(_, _) => b := a - 1;
  }

  /** Index i has been handed out among the first n operations, or stands at place a of the queue, as many
      places nearer to the head than pos as there were allocations. */
  ghost predicate Advanced(q: seq<nat>, ops: seq<Op>, n: nat, capacity: nat, i: nat, pos: nat, a: nat)
    requires n <= |ops|
  {
    var r := QueueAt(q, ops, n, capacity);
    HandedOut(ops, n, i) || (a + Asked(ops, n) <= pos && a < |r| && r[a] == i)
  }

  lemma HandedOutLater(ops: seq<Op>, n: nat, i: nat)
    requires 0 < n <= |ops| && HandedOut(ops, n - 1, i)
    ensures HandedOut(ops, n, i)
  {
    var k :| 0 <= k < n - 1 && ops[k].GetFree? && ops[k].pick == i;
  }

  /** One operation advances an index that has not been handed out yet. */
  lemma AdvanceOne(ps: seq<PoolState>, q: seq<nat>, ops: seq<Op>, n: nat, i: nat, pos: nat, b: nat) returns (a: nat)
    requires FifoRun(ps, ops) && Represents(ps[0], q) && 0 < n <= |ops|
    requires !(ops[n - 1].Reserve? && ops[n - 1].index == i)
    requires Advanced(q, ops, n - 1, ps[0].capacity, i, pos, b) && !HandedOut(ops, n - 1, i)
    ensures Advanced(q, ops, n, ps[0].capacity, i, pos, a)
  {
    var r := QueueAt(q, ops, n - 1, ps[0].capacity);
    RunRefines(ps, q, ops, n - 1);
    RepresentsDistinct(ps[n - 1], r);
    a := b;
    if ops[n - 1].GetFree? && b == 0 {
      RunPicksHead(ps, q, ops, n - 1);
      assert ops[n - 1].pick == i;
    } else {
      a := QueueMoves(r, ops[n - 1], ps[0].capacity, b);
    }
  }

  /** Until it is handed out, an index moves towards the head at every allocation. */
  lemma {:induction false} MovesForward(ps: seq<PoolState>, q: seq<nat>, ops: seq<Op>, n: nat, pos: nat)
    returns (a: nat)
    requires FifoRun(ps, ops) && Represents(ps[0], q) && n <= |ops| && pos < |q|
    requires forall k :: 0 <= k < n ==> !(ops[k].Reserve? && ops[k].index == q[pos])
    ensures Advanced(q, ops, n, ps[0].capacity, q[pos], pos, a)
  {
    a := pos;
    if n > 0 {
      a := MovesForward(ps, q, ops, n - 1, pos);
      if HandedOut(ops, n - 1, q[pos]) {
        HandedOutLater(ops, n, q[pos]);
      } else {
        a := AdvanceOne(ps, q, ops, n, q[pos], pos, a);
      }
    }
  }

  /** Bounded waiting: a free index is handed out within as many allocations as there were free
      indexes, whatever happens to the other indexes meanwhile. */
  lemma BoundedWaiting(ps: seq<PoolState>, q: seq<nat>, ops: seq<Op>, i: nat)
    requires FifoRun(ps, ops) && Represents(ps[0], q)
    requires i in ps[0].free
    requires forall k :: 0 <= k < |ops| ==> !(ops[k].Reserve? && ops[k].index == i)
    requires Asked(ops, |ops|) >= |ps[0].free|
    ensures HandedOut(ops, |ops|, i)
  {
    var pos :| 0 <= pos < |q| && q[pos] == i;
    RepresentsDistinct(ps[0], q);
    var _ := MovesForward(ps, q, ops, |ops|, pos);
  }
}
