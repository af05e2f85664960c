/** Sequences of pool operations: what every operation keeps, and what whole runs guarantee. */
module PoolRuns {
  import opened Basics
  import opened Pool

  datatype Op =
    | Reserve(index: nat, mac: Mac)
    | Free(index: nat, now: int)
    | GetFree(mac: Mac, pick: nat)

  function Do(p: PoolState, op: Op): PoolState {
    match op
    case Reserve(i, m) => p.Reserve(i, m)
    case Free(i, now) => p.Free(i, now)
    case GetFree(m, pick) => if p.free == {} then p else p.Taken(pick, m)
  }

  /** A pick must be one the policy allows. */
  ghost predicate Legal(p: PoolState, op: Op) {
    op.GetFree? && p.free != {} ==> p.MayPick(op.pick)
  }

  /** ps are the successive pools of a run of ops. */
  ghost predicate Run(ps: seq<PoolState>, ops: seq<Op>) {
    && |ps| == |ops| + 1
    && ps[0].Valid()
    && forall n {:trigger ops[n]} :: 0 <= n < |ops| ==> Legal(ps[n], ops[n]) && ps[n + 1] == Do(ps[n], ops[n])
  }

  /** The operation hands index i to somebody. */
  predicate Takes(p: PoolState, op: Op, i: nat) {
    match op
    case Reserve(j, _) => j == i && p.CanReserve(i)
    case Free(_, _) => false
    case GetFree(_, pick) => pick == i && p.free != {}
  }

  /** The operation gives index i back. */
  predicate Frees(p: PoolState, op: Op, i: nat) {
    op.Free? && op.index == i && p.CanFree(i)
  }

  lemma DoKeepsValid(p: PoolState, op: Op)
    requires p.Valid() && Legal(p, op)
    ensures Do(p, op).Valid() && Do(p, op).capacity == p.capacity && Do(p, op).algorithm == p.algorithm
  {
  }

  lemma PartitionSize(p: PoolState)
    requires p.Valid()
    ensures |p.free| + |p.mac| == p.capacity
  {
    IndexesSize(p.capacity);
    assert p.free + p.mac.Keys == Indexes(p.capacity);
    assert p.free !! p.mac.Keys;
  }

  /** The partition of [0, capacity) survives every run, and free plus owned stays the capacity. */
  lemma {:induction false} PartitionInvariant(ps: seq<PoolState>, ops: seq<Op>, n: nat)
    requires Run(ps, ops) && n <= |ops|
    ensures ps[n].Valid() && ps[n].capacity == ps[0].capacity && ps[n].algorithm == ps[0].algorithm
    ensures |ps[n].free| + |ps[n].mac| == ps[0].capacity
  {
    if n > 0 {
      PartitionInvariant(ps, ops, n - 1);
      DoKeepsValid(ps[n - 1], ops[n - 1]);
    }
    PartitionSize(ps[n]);
  }

  /** Between two successful takes of one index lies a successful free of it. */
  lemma TakesAreSeparated(ps: seq<PoolState>, ops: seq<Op>, j: nat, k: nat, i: nat)
    requires Run(ps, ops) && j < k < |ops|
    requires Takes(ps[j], ops[j], i) && Takes(ps[k], ops[k], i)
    ensures exists f {:trigger ops[f]} :: j < f < k && Frees(ps[f], ops[f], i)
  {
    if forall f {:trigger ops[f]} :: j < f < k ==> !Frees(ps[f], ops[f], i) {
      StaysTaken(ps, ops, j, k, i);
    }
  }

  lemma {:induction false} StaysTaken(ps: seq<PoolState>, ops: seq<Op>, j: nat, n: nat, i: nat)
    requires Run(ps, ops) && j < n <= |ops|
    requires Takes(ps[j], ops[j], i)
    requires forall f {:trigger ops[f]} :: j < f < n ==> !Frees(ps[f], ops[f], i)
    ensures i !in ps[n].free && i < ps[n].capacity
    decreases n
  {
    PartitionInvariant(ps, ops, n - 1);
    assert ps[n] == Do(ps[n - 1], ops[n - 1]);
    if j < n - 1 {
      StaysTaken(ps, ops, j, n - 1, i);
    }
  }

  function Picks(ops: seq<Op>): seq<nat>
    requires forall k :: 0 <= k < |ops| ==> ops[k].GetFree?
  {
    seq(|ops|, k requires 0 <= k < |ops| => ops[k].pick)
  }

  /** Taking from a fresh pool as often as its capacity returns every index exactly once, and
      the pool is then full. */
  lemma TakeAllIsPermutation(ps: seq<PoolState>, ops: seq<Op>, algorithm: int, clock: nat -> int)
    requires Run(ps, ops) && ps[0] == New(|ops|, algorithm, clock)
    requires forall k :: 0 <= k < |ops| ==> ops[k].GetFree?
    ensures Distinct(Picks(ops)) && Elements(Picks(ops)) == Indexes(|ops|)
    ensures ps[|ops|].free == {}
  {
    var n := |ops|;
    IndexesSize(n);
    TakeManyDistinct(ps, ops, n);
    PartitionInvariant(ps, ops, n);
    DistinctSize(Picks(ops));
    FullSubset(Elements(Picks(ops)), n);
  }

  lemma FullSubset(a: set<nat>, n: nat)
    requires a <= Indexes(n) && |a| == n
    ensures a == Indexes(n)
  {
    IndexesSize(n);
    assert Indexes(n) == a + (Indexes(n) - a);
  }

  lemma {:induction false} TakeManyDistinct(ps: seq<PoolState>, ops: seq<Op>, n: nat)
    requires Run(ps, ops) && n <= |ops| <= |ps[0].free|
    requires forall k :: 0 <= k < |ops| ==> ops[k].GetFree?
    ensures forall a, b :: 0 <= a < b < n ==> ops[a].pick != ops[b].pick
    ensures forall k :: 0 <= k < n ==> ops[k].pick in ps[n].mac
    ensures |ps[n].free| == |ps[0].free| - n
  {
    if n > 0 {
      TakeManyDistinct(ps, ops, n - 1);
      PartitionInvariant(ps, ops, n - 1);
      var p, q := ps[n - 1], ps[n];
      assert q == Do(p, ops[n - 1]);
      assert p.free == q.free + {ops[n - 1].pick};
    }
  }
}
