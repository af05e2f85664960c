/** Left alone, a scope returns every address that was not lost. */
module LeaseDrain {
  import opened Basics
  import opened PoolRuns
  import opened Lease
  import opened LeaseEffects
  import opened LeaseCoverage

  /** Steps that happen without any client: time passing, evictions, deferred deletes and timers. */
  predicate Housekeeping(step: Step) {
    step.Tick? || step.Evict? || step.Delete? || step.Fire?
  }

  /** Nothing is left to happen by itself. */
  predicate Drained(s: State) {
    s.leases == map[] && s.timers == multiset{} && s.deletes == multiset{}
  }

  ghost predicate QuietRun(c: Config, ss: seq<State>, steps: seq<Step>) {
    Lease.Run(c, ss, steps) && forall k :: 0 <= k < |steps| ==> Housekeeping(steps[k])
  }

  lemma Prepend(c: Config, s: State, step: Step, ss: seq<State>, steps: seq<Step>)
    requires QuietRun(c, ss, steps) && Housekeeping(step) && Enabled(s, step) && ss[0] == Apply(c, s, step)
    ensures QuietRun(c, [s] + ss, [step] + steps)
  {
    var ss', steps' := [s] + ss, [step] + steps;
    forall n {:trigger steps'[n]} | 0 <= n < |steps'|
      ensures Enabled(ss'[n], steps'[n]) && ss'[n + 1] == Apply(c, ss'[n], steps'[n])
    {
      if n > 0 {
        assert steps'[n] == steps[n - 1];
      }
    }
  }

  function WaitUntil(s: State, time: int): nat {
    if s.now < time then time - s.now else 0
  }

  /** Waiting and then one step in front of a run. */
  lemma WaitAnd(c: Config, s: State, d: nat, step: Step, ss: seq<State>, steps: seq<Step>)
    returns (all: seq<State>, more: seq<Step>)
    requires QuietRun(c, ss, steps) && Housekeeping(step)
    requires Enabled(Apply(c, s, Tick(d)), step) && ss[0] == Apply(c, Apply(c, s, Tick(d)), step)
    ensures QuietRun(c, all, more) && all[0] == s && all[|more|] == ss[|steps|]
  {
    var s1 := Apply(c, s, Tick(d));
    Prepend(c, s1, step, ss, steps);
    Prepend(c, s, Tick(d), [s1] + ss, [step] + steps);
    all, more := [s] + ([s1] + ss), [Tick(d)] + ([step] + steps);
  }

  /** The steps left: dropping an entry takes one and leaves a timer. */
  function Work(s: State): nat {
    2 * |s.leases| + |s.deletes| + |s.timers|
  }

  lemma DropWork(s: State, mac: Mac)
    ensures Work(s.DeleteLease(mac)) <= Work(s) && (mac in s.leases ==> Work(s.DeleteLease(mac)) < Work(s))
  {
    if mac in s.leases {
      assert s.leases.Keys == (s.leases - {mac}).Keys + {mac};
      assert |s.leases.Keys| == |s.leases| && |(s.leases - {mac}).Keys| == |s.leases - {mac}|;
    }
  }

  lemma DeleteWork(c: Config, s: State, mac: Mac)
    requires mac in s.deletes
    ensures Work(Apply(c, s, Delete(mac))) < Work(s)
  {
    var d := s.(deletes := s.deletes - multiset{mac});
    assert Work(d) == Work(s) - 1;
    DropWork(d, mac);
  }

  lemma FireWork(c: Config, s: State, t: Timer)
    requires t in s.timers
    ensures Work(Apply(c, s, Fire(t))) < Work(s)
  {
  }

  /** Waiting for d and then this step is housekeeping that leaves less to do. */
  ghost predicate Progress(c: Config, s: State, d: nat, step: Step) {
    var w := Apply(c, s, Tick(d));
    Housekeeping(step) && Enabled(w, step) && Work(Apply(c, w, step)) < Work(s)
  }

  lemma DeleteQuiet(c: Config, s: State) returns (d: nat, step: Step)
    requires s.deletes != multiset{}
    ensures Progress(c, s, d, step)
  {
    var mac :| mac in s.deletes;
    d, step := 0, Delete(mac);
    DeleteWork(c, Apply(c, s, Tick(d)), mac);
  }

  lemma EvictQuiet(c: Config, s: State) returns (d: nat, step: Step)
    requires s.leases != map[]
    ensures Progress(c, s, d, step)
  {
    var mac :| mac in s.leases;
    d, step := WaitUntil(s, s.leases[mac].expires + 1), Evict(mac);
    DropWork(Apply(c, s, Tick(d)), mac);
  }

  lemma FireQuiet(c: Config, s: State) returns (d: nat, step: Step)
    requires s.timers != multiset{}
    ensures Progress(c, s, d, step)
  {
    var t :| t in s.timers;
    d, step := WaitUntil(s, t.due), Fire(t);
    FireWork(c, Apply(c, s, Tick(d)), t);
  }

  /** Every state can be drained: deferred deletes are made, entries expire and are evicted, timers fire. */
  lemma {:induction false} DrainAll(c: Config, s: State) returns (ss: seq<State>, steps: seq<Step>)
    ensures QuietRun(c, ss, steps) && ss[0] == s && Drained(ss[|steps|])
    decreases Work(s)
  {
    if Drained(s) {
      ss, steps := [s], [];
    } else {
      var d, step;
      if s.deletes != multiset{} {
        d, step := DeleteQuiet(c, s);
      } else if s.leases != map[] {
        d, step := EvictQuiet(c, s);
      } else {
        d, step := FireQuiet(c, s);
      }
      ss, steps := DrainAll(c, Apply(c, Apply(c, s, Tick(d)), step));
      ss, steps := WaitAnd(c, s, d, step, ss, steps);
    }
  }

  /** Housekeeping loses nothing. */
  lemma {:induction false} QuietRunKeeps(c: Config, ss: seq<State>, steps: seq<Step>, n: nat, base: set<nat>)
    requires QuietRun(c, ss, steps) && n <= |steps|
    requires PoolReady(c, ss[0]) && StaticLeases(c, ss[0]) && NoneLost(ss[0], base)
    ensures PoolReady(c, ss[n]) && StaticLeases(c, ss[n]) && NoneLost(ss[n], base)
  {
    if n > 0 {
      QuietRunKeeps(c, ss, steps, n - 1, base);
      assert Housekeeping(steps[n - 1]);
      StepLosesIff(c, ss[n - 1], steps[n - 1], base);
      ApplyPoolReady(c, ss[n - 1], steps[n - 1]);
      ApplyStaticLeases(c, ss[n - 1], steps[n - 1]);
    }
  }

  /** However a scope in which no address is lost is left to itself, once nothing is pending any more only
      configured indexes are taken, so at least the configured number is free. */
  lemma DrainRestores(c: Config, ss: seq<State>, steps: seq<Step>, base: set<nat>)
    requires QuietRun(c, ss, steps) && PoolReady(c, ss[0]) && StaticLeases(c, ss[0]) && NoneLost(ss[0], base)
    requires ss[|steps|].leases == map[] && ss[|steps|].timers == multiset{}
    ensures ss[|steps|].pool.mac.Keys <= base
    ensures |ss[|steps|].pool.free| >= c.range - |base|
  {
    QuietRunKeeps(c, ss, steps, |steps|, base);
    var last := ss[|steps|];
    forall i | i in last.pool.mac
      ensures i in base
    {
      assert Safe(last, base, i);
    }
    PartitionSize(last.pool);
    SubsetSize(last.pool.mac.Keys, base);
  }

  /** Conservation over a whole run: after any run in which no step lost an address, every way of leaving the
      scope to itself until nothing is pending restores at least the number of free addresses the
      configuration left. */
  lemma RunDrains(c: Config, ss: seq<State>, steps: seq<Step>, tt: seq<State>, quiet: seq<Step>)
    requires RunFromStart(c, ss, steps)
    requires forall k {:trigger steps[k]} :: 0 <= k < |steps| ==> !Loses(c, ss[k], steps[k], ss[0].pool.mac.Keys)
    requires QuietRun(c, tt, quiet) && tt[0] == ss[|steps|] && tt[|quiet|].leases == map[] && tt[|quiet|].timers == multiset{}
    ensures |tt[|quiet|].pool.free| >= |ss[0].pool.free|
    ensures tt[|quiet|].pool.mac.Keys <= ss[0].pool.mac.Keys
  {
    NoAddressLost(c, ss, steps, |steps|);
    RunPoolReady(c, ss, steps, |steps|);
    PartitionSize(ss[0].pool);
    DrainRestores(c, tt, quiet, ss[0].pool.mac.Keys);
  }
}
