/** Index 0, which the retry loop uses without taking it: exactly when a lease for it is never freed under
    its client. */
module LeaseHeldZero {
  import opened Basics
  import opened Address
  import opened Pool
  import opened Lease
  import opened LeaseEffects
  import opened LeaseCoverage
  import opened LeaseAlone
  import opened LeaseReserved
  import opened LeaseStability
  import opened LeaseHeld
  import opened LeaseWitness
  import opened LeaseLost

  /** Index j can become free while the holder of index 0 is silent. */
  ghost predicate Movable(c: Config, s: State, mac: Mac, j: nat) {
    && 0 < j < c.range
    && (|| j in s.pool.free || TimerOn(s, j) || StaticClientAt(c, j)
        || exists k :: k != mac && HoldsLease(s, k, j))
  }

  /** Index j belongs to another client without static assignment, who can ask for it by name. */
  ghost predicate Lent(c: Config, s: State, mac: Mac, j: nat) {
    && 0 < j < c.range && j in s.pool.mac
    && s.pool.mac[j] != mac && ClientMac(s.pool.mac[j]) && !c.Static(s.pool.mac[j])
  }

  /** A search can choose one index and leave another free. */
  ghost predicate Exposed(c: Config, s: State, mac: Mac) {
    exists j: nat, k: nat :: j != k && Movable(c, s, mac, j) && (Movable(c, s, mac, k) || Lent(c, s, mac, k))
  }

  /** A client that has index 0 as its static position can be ACKed there. */
  ghost predicate ZeroClaimed(c: Config) {
    StaticClientAt(c, 0) && c.AddressOf(0) != 0
  }

  // ---------- Not exposed: no search comes to index 0 ----------

  /** Every index but 0 and x is with an owner that nothing moves; if x is in the scope, no other client
      can ask for one of them. */
  ghost predicate Settled(c: Config, s: State, mac: Mac, x: nat) {
    x != 0 && forall j: nat :: 0 < j < c.range && j != x ==>
      && j in s.pool.mac && Untouched(s, j, s.pool.mac[j]) && !StaticClientAt(c, j)
      && (x < c.range ==> !Lent(c, s, mac, j))
  }

  lemma SettledBy(c: Config, s: State, mac: Mac) returns (x: nat)
    requires PoolReady(c, s) && HoldsLease(s, mac, 0) && !Exposed(c, s, mac)
    ensures Settled(c, s, mac, x)
  {
    x := c.range;
    if y: nat :| Movable(c, s, mac, y) {
      x := y;
    }
    forall j: nat | 0 < j < c.range && j != x
      ensures j in s.pool.mac && Untouched(s, j, s.pool.mac[j]) && !StaticClientAt(c, j)
      ensures x < c.range ==> !Lent(c, s, mac, j)
    {
      assert !Movable(c, s, mac, j);
      Unmoved(c, s, mac, j);
    }
  }

  lemma Unmoved(c: Config, s: State, mac: Mac, j: nat)
    requires PoolReady(c, s) && HoldsLease(s, mac, 0) && 0 < j < c.range && !Movable(c, s, mac, j)
    ensures j in s.pool.mac && Untouched(s, j, s.pool.mac[j])
  {
    forall k | k in s.leases
      ensures s.leases[k].value != j
    {
      assert k != mac ==> !HoldsLease(s, k, j);
    }
  }

  /** In a settled scope a search of another client takes x and leaves nothing free. */
  lemma SettledMisses(c: Config, s: State, m: Message, pick: nat, probes: seq<bool>, mac: Mac, x: nat)
    requires GoodArguments(c, s, None, pick) && ClientMac(m.mac) && !c.Static(m.mac) && m.mac != mac
    requires Settled(c, s, mac, x) && 0 in s.pool.mac && s.pool.mac[0] == mac
    ensures Misses(c, s, m, pick, probes, 0)
  {
    FirstChoiceEffect(c, s, m, pick);
    NothingFree(c, s.pool, m, pick);
    var r := FirstChoice(c, s.pool, m, pick);
    assert forall j :: j in s.pool.free ==> j == x;
    if r.Chosen? {
      assert r.index != 0;
      if r.index != x {
        assert Lent(c, s, mac, r.index);
      }
      assert r.index == x;
    }
  }

  /** Whoever sends it, a message leaves a settled index as it is, while the holder of 0 only renews. */
  lemma ServeSettled(c: Config, s: State, step: Step, mac: Mac, x: nat, j: nat)
    requires PoolReady(c, s) && Enabled(s, step) && step.Serve? && !c.Static(mac) && Holds(s, mac, 0) && Settled(c, s, mac, x)
    requires ByClient(step, mac) ==> Renews(s, step, mac)
    requires 0 < j < c.range && j != x
    ensures var t := Apply(c, s, step); j in t.pool.mac && t.pool.mac[j] == s.pool.mac[j] && Untouched(t, j, t.pool.mac[j])
  {
    var m, o := step.m, s.pool.mac[j];
    if Seeks(c, s, m) {
      SettledFree(c, s, m, mac, x, j);
      MissesOthers(c, s, m, step.pick, step.probes, j);
    }
    RespondAside(c, s, m, step.pick, step.probes, j, o);
    RespondFrame(c, s, m, step.pick, step.probes);
  }

  lemma SettledFree(c: Config, s: State, m: Message, mac: Mac, x: nat, j: nat)
    requires PoolReady(c, s) && Settled(c, s, mac, x) && Holds(s, mac, 0) && 0 < j < c.range && j != x
    requires ClientMac(m.mac) && Searches(c, s, m) && (m.mac == mac ==> s.LeaseOf(mac).Some?)
    ensures s.pool.mac[j] != m.mac || s.pool.free == {}
  {
    if s.pool.mac[j] == m.mac && x >= c.range {
      assert forall k: nat :: k < c.range ==> k in s.pool.mac;
    }
  }

  lemma QuietSettled(c: Config, s: State, step: Step, mac: Mac, x: nat, j: nat)
    requires PoolReady(c, s) && Enabled(s, step) && !step.Serve? && Settled(c, s, mac, x) && 0 < j < c.range && j != x
    ensures var t := Apply(c, s, step); j in t.pool.mac && t.pool.mac[j] == s.pool.mac[j] && Untouched(t, j, t.pool.mac[j])
  {
    QuietStep(c, s, step, s.pool.mac[j], j, {});
    EntryNotNew(c, s, step, s.pool.mac[j]);
  }

  lemma StepSettled(c: Config, s: State, step: Step, mac: Mac, x: nat)
    requires PoolReady(c, s) && Enabled(s, step) && !c.Static(mac) && Holds(s, mac, 0) && Settled(c, s, mac, x)
    requires ByClient(step, mac) ==> Renews(s, step, mac)
    ensures Settled(c, Apply(c, s, step), mac, x)
  {
    forall j: nat | 0 < j < c.range && j != x
      ensures var t := Apply(c, s, step); j in t.pool.mac && t.pool.mac[j] == s.pool.mac[j] && Untouched(t, j, t.pool.mac[j])
    {
      if step.Serve? {
        ServeSettled(c, s, step, mac, x, j);
      } else {
        QuietSettled(c, s, step, mac, x, j);
      }
    }
  }

  lemma OtherServeZero(c: Config, s: State, m: Message, pick: nat, probes: seq<bool>, mac: Mac, x: nat)
    requires PoolReady(c, s) && Enabled(s, Serve(m, pick, probes)) && m.mac != mac
    requires Alone(s, 0, mac) && Settled(c, s, mac, x) && !ZeroClaimed(c)
    ensures Alone(Apply(c, s, Serve(m, pick, probes)), 0, mac)
  {
    if StaticAt(c, m.mac, 0) {
      NoAckOfZero(c, s, m, pick, probes);
      StaticRespondAside(c, s, m, pick, probes, 0, mac);
    } else {
      if Seeks(c, s, m) {
        SettledMisses(c, s, m, pick, probes, mac, x);
      }
      RespondAside(c, s, m, pick, probes, 0, mac);
    }
  }

  lemma ZeroStep(c: Config, s: State, step: Step, mac: Mac, x: nat)
    requires PoolReady(c, s) && Enabled(s, step) && !c.Static(mac) && !ZeroClaimed(c)
    requires ByClient(step, mac) ==> Renews(s, step, mac)
    requires mac in s.leases ==> Holds(s, mac, 0) && Settled(c, s, mac, x)
    ensures var t := Apply(c, s, step);
            mac in t.leases ==> Holds(t, mac, 0) && Settled(c, t, mac, x)
  {
    if mac in s.leases {
      StepSettled(c, s, step, mac, x);
      if ByClient(step, mac) {
        RenewalHolds(c, s, step, mac, 0);
      } else {
        EntryNotNew(c, s, step, mac);
        if step.Serve? {
          OtherServeZero(c, s, step.m, step.pick, step.probes, mac, x);
        } else if mac in Apply(c, s, step).leases {
          QuietStep(c, s, step, mac, 0, {});
        }
      }
    } else if !ByClient(step, mac) {
      EntryNotNew(c, s, step, mac);
    }
  }

  lemma {:induction false} ZeroHeld(c: Config, ss: seq<State>, steps: seq<Step>, n: nat, mac: Mac, x: nat)
    requires Run(c, ss, steps) && n <= |steps| && PoolReady(c, ss[0]) && OnlyRenews(ss, steps, 0, n, mac)
    requires !c.Static(mac) && !ZeroClaimed(c) && Holds(ss[0], mac, 0) && Settled(c, ss[0], mac, x)
    ensures mac in ss[n].leases ==> Holds(ss[n], mac, 0) && Settled(c, ss[n], mac, x)
  {
    if n > 0 {
      ZeroHeld(c, ss, steps, n - 1, mac, x);
      RunReadyFrom(c, ss, steps, 0, n - 1);
      ZeroStep(c, ss[n - 1], steps[n - 1], mac, x);
    }
  }

  lemma ZeroIsSafe(c: Config, s: State, mac: Mac)
    requires Dynamic(c, s, mac, 0) && Alone(s, 0, mac) && !ZeroClaimed(c) && !Exposed(c, s, mac)
    ensures NeverFreedUnder(c, s, mac, 0)
  {
    var x := SettledBy(c, s, mac);
    forall ss: seq<State>, steps: seq<Step> |
      Run(c, ss, steps) && ss[0] == s && OnlyRenews(ss, steps, 0, |steps|, mac) && HoldsLease(ss[|steps|], mac, 0)
      ensures 0 in ss[|steps|].pool.mac && ss[|steps|].pool.mac[0] == mac
    {
      ZeroHeld(c, ss, steps, |steps|, mac, x);
    }
  }

  // ---------- Exposed: a run comes to index 0 ----------

  /** What making j free keeps. */
  ghost predicate KeepsOthers(c: Config, s: State, t: State, mac: Mac, j: nat) {
    && HoldsLease(t, mac, 0) && StaticLeases(c, t)
    && t.pool.free == s.pool.free + {j}
    && (forall k: nat :: k != j && Movable(c, s, mac, k) ==> Movable(c, t, mac, k))
    && (forall k: nat :: k != j && Lent(c, s, mac, k) ==> Lent(c, t, mac, k))
  }

  lemma MoveByTimer(c: Config, s0: State, s: State, mac: Mac, j: nat, timer: Timer) returns (t: State)
    requires Leads(c, {mac}, s0, s) && HoldsLease(s, mac, 0) && StaticLeases(c, s) && 0 < j < c.range
    requires timer in s.timers && timer.index == j
    ensures Leads(c, {mac}, s0, t) && KeepsOthers(c, s, t, mac, j)
  {
    ReachReady(c, {mac}, s0, s);
    t := ReachPending(c, {mac}, s0, s, timer);
    forall k: nat | k != j && Movable(c, s, mac, k)
      ensures Movable(c, t, mac, k)
    {
      if o :| o != mac && HoldsLease(s, o, k) {
        assert HoldsLease(t, o, k);
      }
      if TimerOn(s, k) {
        var y :| y in s.timers && y.index == k;
        assert y in t.timers;
      }
    }
  }

  lemma MoveByEntry(c: Config, s0: State, s: State, mac: Mac, j: nat, other: Mac) returns (t: State)
    requires Leads(c, {mac}, s0, s) && HoldsLease(s, mac, 0) && StaticLeases(c, s) && 0 < j < c.range
    requires other != mac && HoldsLease(s, other, j)
    ensures Leads(c, {mac}, s0, t) && KeepsOthers(c, s, t, mac, j)
  {
    ReachReady(c, {mac}, s0, s);
    t := EvictAndFree(c, {mac}, s0, s, other);
    forall k: nat | k != j && Movable(c, s, mac, k)
      ensures Movable(c, t, mac, k)
    {
      if o :| o != mac && HoldsLease(s, o, k) {
        assert HoldsLease(t, o, k);
      }
    }
  }

  lemma MoveByStatic(c: Config, s0: State, s: State, mac: Mac, j: nat, other: Mac) returns (t: State)
    requires Leads(c, {mac}, s0, s) && HoldsLease(s, mac, 0) && StaticLeases(c, s) && 0 < j < c.range && !c.Static(mac)
    requires ClientMac(other) && StaticAt(c, other, j)
    ensures Leads(c, {mac}, s0, t) && KeepsOthers(c, s, t, mac, j)
  {
    ReachReady(c, {mac}, s0, s);
    IndexRoundTrip(c.start, c.range, j);
    t := FreeStatic(c, {mac}, s0, s, other, j);
    forall k: nat | k != j && Movable(c, s, mac, k)
      ensures Movable(c, t, mac, k)
    {
      if o :| o != mac && HoldsLease(s, o, k) {
        assert HoldsLease(t, o, k);
      }
    }
  }

  lemma MakeFree(c: Config, s0: State, s: State, mac: Mac, j: nat) returns (t: State)
    requires Leads(c, {mac}, s0, s) && HoldsLease(s, mac, 0) && StaticLeases(c, s) && !c.Static(mac) && Movable(c, s, mac, j)
    ensures Leads(c, {mac}, s0, t) && KeepsOthers(c, s, t, mac, j)
  {
    if j in s.pool.free {
      t := s;
    } else if TimerOn(s, j) {
      var timer :| timer in s.timers && timer.index == j;
      t := MoveByTimer(c, s0, s, mac, j, timer);
    } else if other :| other != mac && HoldsLease(s, other, j) {
      t := MoveByEntry(c, s0, s, mac, j, other);
    } else {
      var other :| ClientMac(other) && StaticAt(c, other, j);
      t := MoveByStatic(c, s0, s, mac, j, other);
    }
  }

  /** With two free indexes another client's probe conflict leads to index 0. */
  lemma FreedByPick(c: Config, s0: State, s: State, mac: Mac)
    requires Leads(c, {mac}, s0, s) && HoldsLease(s, mac, 0) && |s.pool.free| >= 2
    ensures !NeverFreedUnder(c, s0, mac, 0)
  {
    var m, pick, a := ZeroOffered(c, {mac}, s0, s);
    FreedByEntry(c, s0, a, mac, m.mac);
  }

  lemma FreedByEntry(c: Config, s0: State, s: State, mac: Mac, other: Mac)
    requires Leads(c, {mac}, s0, s) && HoldsLease(s, mac, 0) && other != mac && HoldsLease(s, other, 0)
    ensures !NeverFreedUnder(c, s0, mac, 0)
  {
    ReachReady(c, {mac}, s0, s);
    var t := EvictAndFree(c, {mac}, s0, s, other);
    FreedUnder(c, s0, t, mac, 0);
  }

  /** So does the conflict of a client that asks for its own address while another index is free. */
  lemma FreedByName(c: Config, s0: State, s: State, mac: Mac, k: nat)
    requires Leads(c, {mac}, s0, s) && HoldsLease(s, mac, 0) && s.pool.free != {} && Lent(c, s, mac, k)
    ensures !NeverFreedUnder(c, s0, mac, 0)
  {
    var other := s.pool.mac[k];
    ReachReady(c, {mac}, s0, s);
    var m := Naming(c, other, k);
    var a := ReachUnmarked(c, {mac}, s0, s, m);
    var b := ReachExpired(c, {mac}, s0, a, other);
    var pick := SomePick(b.pool);
    NamedConflict(c, b, m, pick, k);
    ReachStep(c, {mac}, s0, b, Serve(m, pick, [true]));
    FreedByEntry(c, s0, Apply(c, b, Serve(m, pick, [true])), mac, other);
  }

  /** The entry of a client, if there is one, can expire. */
  lemma ReachExpired(c: Config, spared: set<Mac>, s0: State, s: State, mac: Mac) returns (t: State)
    requires Leads(c, spared, s0, s)
    ensures Leads(c, spared, s0, t) && s.now <= t.now && t == s.(now := t.now) && t.LeaseOf(mac).None?
  {
    t := ReachTick(c, spared, s0, s, if mac in s.leases then Later(s.now, s.leases[mac].expires + 1) - s.now else 0);
  }

  /** The retry loop whose named choice is probed with success comes to index 0. */
  lemma NamedRetry(c: Config, s: State, m: Message, pick: nat, k: nat)
    requires PoolReady(c, s) && AsksFor(c, m, k) && k in s.pool.mac && s.pool.mac[k] == m.mac && s.pool.free != {}
    ensures HoldsLease(Retry(c, s, m, None, true, pick, [true]).s, m.mac, 0)
  {
    var b := Conflict(Locked(c, s, m, s.pool, k), m, k);
    RetryIsSearch(c, s, m, pick, [true]);
    NamedChoice(c, s, m, pick, k);
    assert [true][1..] == [];
    OwnedConflict(c, s, m, k);
    ZeroOffers(c, b, m);
  }

  lemma OwnedConflict(c: Config, s: State, m: Message, k: nat)
    requires s.pool.Valid() && k in s.pool.mac
    ensures Conflict(Locked(c, s, m, s.pool, k), m, k).pool == s.pool
  {
  }

  lemma NamedConflict(c: Config, s: State, m: Message, pick: nat, k: nat)
    requires PoolReady(c, s) && Enabled(s, Serve(m, pick, [true])) && !c.Static(m.mac) && m.kind == DiscoverKind && AsksFor(c, m, k)
    requires k in s.pool.mac && s.pool.mac[k] == m.mac && s.pool.free != {} && !Duplicate(c, s, m) && s.LeaseOf(m.mac).None?
    ensures var t := Apply(c, s, Serve(m, pick, [true])); HoldsLease(t, m.mac, 0) && OtherLeasesKept(s, t, m.mac)
  {
    NamedRetry(c, Entered(c, s, m), m, pick, k);
    RespondFrame(c, s, m, pick, [true]);
  }

  lemma ExposedIsFreed(c: Config, s: State, mac: Mac)
    requires Dynamic(c, s, mac, 0) && StaticLeases(c, s) && Exposed(c, s, mac)
    ensures !NeverFreedUnder(c, s, mac, 0)
  {
    var j: nat, k: nat :| j != k && Movable(c, s, mac, j) && (Movable(c, s, mac, k) || Lent(c, s, mac, k));
    ReachStart(c, {mac}, s);
    var a := MakeFree(c, s, s, mac, j);
    if Movable(c, s, mac, k) {
      var b := MakeFree(c, s, a, mac, k);
      assert {j, k} <= b.pool.free;
      SubsetSize({j, k}, b.pool.free);
      FreedByPick(c, s, b, mac);
    } else {
      assert j in a.pool.free;
      FreedByName(c, s, a, mac, k);
    }
  }

  /** A lease for index 0 is never freed under its client if and only if nothing else refers to the index, no
      static client can be ACKed there, and no search can choose an index and leave another free. */
  lemma ZeroNeverFreedIff(c: Config, s: State, mac: Mac)
    requires Dynamic(c, s, mac, 0) && StaticLeases(c, s)
    ensures NeverFreedUnder(c, s, mac, 0) <==>
            Alone(s, 0, mac) && !ZeroClaimed(c) && !Exposed(c, s, mac)
  {
    if !(Alone(s, 0, mac) && !ZeroClaimed(c)) {
      ReferredIsFreed(c, s, mac, 0);
    } else if Exposed(c, s, mac) {
      ExposedIsFreed(c, s, mac);
    } else {
      ZeroIsSafe(c, s, mac);
    }
  }
}
