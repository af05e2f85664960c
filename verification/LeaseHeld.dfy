/** A lease is exclusive while its entry is there: exactly when nothing else refers to its index. */
module LeaseHeld {
  import opened Basics
  import opened Address
  import opened Lease
  import opened LeaseEffects
  import opened LeaseAcks
  import opened LeaseCoverage
  import opened LeaseAlone
  import opened LeaseStability
  import opened LeaseWitness

  predicate ByClient(step: Step, mac: Mac) {
    step.Serve? && step.m.mac == mac
  }

  /** From a to b the history grew by events that do not free index i and tell it only to the clients given. */
  ghost predicate NoNews(c: Config, a: seq<Event>, b: seq<Event>, i: nat, told: set<Mac>) {
    && |a| <= |b|
    && (forall k :: |a| <= k < |b| ==> !FreesIndex(b[k], i) && (Mentions(c, b[k], i) ==> b[k].mac in told))
  }

  lemma NoNewsTransitive(c: Config, a: State, b: State, step: Step, i: nat, told: set<Mac>)
    requires NoNews(c, a.log, b.log, i, told) && NoNews(c, b.log, Apply(c, b, step).log, i, told)
    requires PoolReady(c, b) && Enabled(b, step)
    ensures NoNews(c, a.log, Apply(c, b, step).log, i, told)
  {
    LogOnlyGrows(c, b, step);
  }

  /** Logging an answer that does not tell i to anybody else. */
  lemma AnswerNoNews(c: Config, s: State, t: State, e: Event, i: nat, told: set<Mac>)
    requires LogGrows(s.log, t.log) && e.Answered? && (Mentions(c, e, i) ==> e.mac in told)
    ensures NoNews(c, s.log, t.Log(e).log, i, told)
  {
  }

  // ---------- Steps of others ----------

  lemma OtherServe(c: Config, s: State, m: Message, pick: nat, probes: seq<bool>, mac: Mac, i: nat)
    requires PoolReady(c, s) && Enabled(s, Serve(m, pick, probes)) && m.mac != mac
    requires Alone(s, i, mac) && i != 0 && !StaticClientAt(c, i)
    ensures var t := Apply(c, s, Serve(m, pick, probes)); Alone(t, i, mac) && NoNews(c, s.log, t.log, i, {mac})
  {
    var r := Respond(c, s, m, pick, probes);
    RespondAlone(c, s, m, pick, probes, i, mac);
    RespondFrame(c, s, m, pick, probes);
    AnswerNoNews(c, s, r.s, Answered(m.mac, r.answer), i, {mac});
  }

  lemma DropOther(c: Config, s: State, k: Mac, mac: Mac, i: nat, told: set<Mac>)
    requires Alone(s, i, mac) && (k != mac || !HoldsLease(s, mac, i))
    ensures Alone(s.DeleteLease(k), i, mac) && NoNews(c, s.log, s.DeleteLease(k).log, i, told)
  {
  }

  /** Steps that serve no message leave an index alone, except the drop of the holder's entry. */
  lemma QuietStep(c: Config, s: State, step: Step, mac: Mac, i: nat, told: set<Mac>)
    requires PoolReady(c, s) && Enabled(s, step) && Alone(s, i, mac) && !step.Serve?
    requires step == Evict(mac) || step == Delete(mac) ==> !HoldsLease(s, mac, i)
    ensures Alone(Apply(c, s, step), i, mac) && NoNews(c, s.log, Apply(c, s, step).log, i, told)
  {
    match step
    case Evict(k) => DropOther(c, s, k, mac, i, told);
    case Delete(k) => DropOther(c, s.(deletes := s.deletes - multiset{k}), k, mac, i, told);
    case Fire(t) =>
    case ApiRelease(_) =>
    case Tick(_) =>
  }

  /** Only its own messages give a client an entry. */
  lemma EntryNotNew(c: Config, s: State, step: Step, mac: Mac)
    requires PoolReady(c, s) && Enabled(s, step) && !ByClient(step, mac)
    ensures var t := Apply(c, s, step);
            mac in t.leases ==> mac in s.leases && t.leases[mac].value == s.leases[mac].value
  {
    if step.Serve? {
      RespondFrame(c, s, step.m, step.pick, step.probes);
    }
  }

  // ---------- The holder's own messages ----------

  /** A message of the client while its entry is live, other than giving the address back. */
  predicate Renews(s: State, step: Step, mac: Mac) {
    ByClient(step, mac) && s.LeaseOf(mac).Some? && step.m.kind != ReleaseKind && step.m.kind != DeclineKind
  }

  /** The client has an entry for i and holds i alone. */
  ghost predicate Holds(s: State, mac: Mac, i: nat) {
    Alone(s, i, mac) && HoldsLease(s, mac, i)
  }

  lemma OwnRequestHolds(c: Config, s: State, m: Message, i: nat)
    requires PoolReady(c, s) && !c.Static(m.mac) && Holds(s, m.mac, i) && s.LeaseOf(m.mac).Some?
    ensures m.mac !in Request(c, s, m).s.leases || Holds(Request(c, s, m).s, m.mac, i)
  {
    var ip, j := RequestShape(c, s, m);
  }

  lemma OwnDiscoverHolds(c: Config, s: State, m: Message, pick: nat, probes: seq<bool>, i: nat)
    requires PoolReady(c, s) && ClientMac(m.mac) && !c.Static(m.mac) && Holds(s, m.mac, i) && s.LeaseOf(m.mac).Some?
    ensures Holds(Discover(c, s, m, pick, probes).s, m.mac, i)
  {
    DiscoverLive(c, s, m, pick, probes);
  }

  lemma RespondHolds(c: Config, s: State, m: Message, pick: nat, probes: seq<bool>, i: nat)
    requires PoolReady(c, s) && ClientMac(m.mac) && !c.Static(m.mac) && Holds(s, m.mac, i) && s.LeaseOf(m.mac).Some?
    requires m.kind != ReleaseKind && m.kind != DeclineKind
    ensures m.mac !in Respond(c, s, m, pick, probes).s.leases || Holds(Respond(c, s, m, pick, probes).s, m.mac, i)
  {
    if !Duplicate(c, s, m) {
      match m.kind
      case DiscoverKind => OwnDiscoverHolds(c, Entered(c, s, m), m, pick, probes, i);
      case RequestKind => OwnRequestHolds(c, Entered(c, s, m), m, i);
      case InformKind => OwnRequestHolds(c, Entered(c, s, m), m, i);
      case OfferKind =>
      case AckKind =>
      case NakKind =>
    }
  }

  /** A renewal drops the client's entry or leaves it holding its index alone. */
  lemma RenewalHolds(c: Config, s: State, step: Step, mac: Mac, i: nat)
    requires PoolReady(c, s) && Enabled(s, step) && !c.Static(mac) && Holds(s, mac, i) && Renews(s, step, mac)
    ensures var t := Apply(c, s, step);
            && (mac !in t.leases || Holds(t, mac, i))
            && NoNews(c, s.log, t.log, i, {mac})
  {
    var r := Respond(c, s, step.m, step.pick, step.probes);
    RespondFrame(c, s, step.m, step.pick, step.probes);
    RespondHolds(c, s, step.m, step.pick, step.probes, i);
    AnswerNoNews(c, s, r.s, Answered(mac, r.answer), i, {mac});
  }

  /** One step: while the entry is there it is held alone, and nobody else hears of it. */
  lemma HeldStep(c: Config, s: State, step: Step, mac: Mac, i: nat)
    requires PoolReady(c, s) && Enabled(s, step) && !c.Static(mac) && i != 0 && !StaticClientAt(c, i)
    requires ByClient(step, mac) ==> Renews(s, step, mac)
    requires mac in s.leases ==> Holds(s, mac, i)
    ensures var t := Apply(c, s, step);
            mac in t.leases ==> Holds(t, mac, i) && mac in s.leases && NoNews(c, s.log, t.log, i, {mac})
  {
    if mac in s.leases && ByClient(step, mac) {
      RenewalHolds(c, s, step, mac, i);
    } else if !ByClient(step, mac) {
      EntryNotNew(c, s, step, mac);
      if mac in Apply(c, s, step).leases {
        OtherHolds(c, s, step, mac, i);
      }
    }
  }

  lemma OtherHolds(c: Config, s: State, step: Step, mac: Mac, i: nat)
    requires PoolReady(c, s) && Enabled(s, step) && Holds(s, mac, i) && i != 0 && !StaticClientAt(c, i)
    requires !ByClient(step, mac) && mac in Apply(c, s, step).leases
    ensures Alone(Apply(c, s, step), i, mac) && NoNews(c, s.log, Apply(c, s, step).log, i, {mac})
  {
    if step.Serve? {
      OtherServe(c, s, step.m, step.pick, step.probes, mac, i);
    } else {
      QuietStep(c, s, step, mac, i, {mac});
    }
  }

  /** The client sends nothing but renewals. */
  ghost predicate OnlyRenews(ss: seq<State>, steps: seq<Step>, a: nat, n: nat, mac: Mac)
    requires a <= n <= |steps| < |ss|
  {
    forall k {:trigger steps[k]} :: a <= k < n ==> ByClient(steps[k], mac) ==> Renews(ss[k], steps[k], mac)
  }

  /** Exclusivity: a client that holds an index alone holds it alone as long as its entry is there, over any
      number of renewals; nobody else is told the address meanwhile, and it is not freed. */
  lemma {:induction false} HeldExclusively(c: Config, ss: seq<State>, steps: seq<Step>, a: nat, n: nat, mac: Mac, i: nat)
    requires Run(c, ss, steps) && a <= n <= |steps| && PoolReady(c, ss[a])
    requires !c.Static(mac) && Holds(ss[a], mac, i) && i != 0 && !StaticClientAt(c, i)
    requires OnlyRenews(ss, steps, a, n, mac)
    ensures mac in ss[n].leases ==> Holds(ss[n], mac, i) && NoNews(c, ss[a].log, ss[n].log, i, {mac})
    decreases n
  {
    if a < n {
      var s, step := ss[n - 1], steps[n - 1];
      RunReadyFrom(c, ss, steps, a, n - 1);
      HeldExclusively(c, ss, steps, a, n - 1, mac, i);
      HeldStep(c, s, step, mac, i);
      if mac in ss[n].leases {
        NoNewsTransitive(c, ss[a], s, step, i, {mac});
      }
    }
  }

  // ---------- Exactly when a lease is never freed under its client ----------

  /** In every run from s in which the client sends nothing but renewals, as long as its entry for i is
      there, the pool records i for it. */
  ghost predicate NeverFreedUnder(c: Config, s: State, mac: Mac, i: nat) {
    forall ss: seq<State>, steps: seq<Step> ::
      Run(c, ss, steps) && ss[0] == s && OnlyRenews(ss, steps, 0, |steps|, mac) && HoldsLease(ss[|steps|], mac, i) ==>
        i in ss[|steps|].pool.mac && ss[|steps|].pool.mac[i] == mac
  }

  lemma HeldIsSafe(c: Config, s: State, mac: Mac, i: nat)
    requires Dynamic(c, s, mac, i) && Alone(s, i, mac) && i != 0 && !StaticClientAt(c, i)
    ensures NeverFreedUnder(c, s, mac, i)
  {
    forall ss: seq<State>, steps: seq<Step> |
      Run(c, ss, steps) && ss[0] == s && OnlyRenews(ss, steps, 0, |steps|, mac) && HoldsLease(ss[|steps|], mac, i)
      ensures i in ss[|steps|].pool.mac && ss[|steps|].pool.mac[i] == mac
    {
      HeldExclusively(c, ss, steps, 0, |steps|, mac, i);
    }
  }

  /** A run that spares the client and frees i under its entry. */
  lemma FreedUnder(c: Config, s: State, t: State, mac: Mac, i: nat)
    requires Leads(c, {mac}, s, t) && HoldsLease(t, mac, i) && i in t.pool.free
    ensures !NeverFreedUnder(c, s, mac, i)
  {
    ReachReady(c, {mac}, s, t);
    var ss, steps :| SparingRun(c, {mac}, s, t, ss, steps);
    assert OnlyRenews(ss, steps, 0, |steps|, mac) by {
      forall k {:trigger steps[k]} | 0 <= k < |steps|
        ensures !ByClient(steps[k], mac)
      {
        assert Spares(steps[k], {mac});
      }
    }
  }

  /** A pending timer on i frees it. */
  lemma TimerFrees(c: Config, s: State, mac: Mac, i: nat, timer: Timer) returns (t: State)
    requires Dynamic(c, s, mac, i) && timer in s.timers && timer.index == i
    ensures Leads(c, {mac}, s, t) && i in t.pool.free && t.leases == s.leases
    ensures t.now == Later(s.now, timer.due)
  {
    ReachStart(c, {mac}, s);
    t := ReachPending(c, {mac}, s, s, timer);
  }

  /** A timer due before the lease expires frees the index while the lease is live. */
  lemma TimerFreesLive(c: Config, s: State, mac: Mac, i: nat, timer: Timer) returns (t: State)
    requires Dynamic(c, s, mac, i) && s.LeaseOf(mac).Some?
    requires timer in s.timers && timer.index == i && timer.due <= s.leases[mac].expires
    ensures Leads(c, {mac}, s, t) && i in t.pool.free && t.LeaseOf(mac) == Some(i)
  {
    t := TimerFrees(c, s, mac, i, timer);
  }

  /** The entry of another client frees its index when it is evicted. */
  lemma EntryFrees(c: Config, s: State, mac: Mac, i: nat, other: Mac) returns (t: State)
    requires Dynamic(c, s, mac, i) && other != mac && HoldsLease(s, other, i)
    ensures Leads(c, {mac}, s, t) && i in t.pool.free && HoldsLease(t, mac, i)
  {
    ReachStart(c, {mac}, s);
    t := EvictAndFree(c, {mac}, s, s, other);
  }

  /** A client with i as its static position gets such an entry by asking for it. */
  lemma StaticFrees(c: Config, s: State, mac: Mac, i: nat, other: Mac) returns (t: State)
    requires Dynamic(c, s, mac, i) && ClientMac(other) && StaticAt(c, other, i) && c.AddressOf(i) != 0
    ensures Leads(c, {mac}, s, t) && i in t.pool.free && HoldsLease(t, mac, i)
  {
    ReachStart(c, {mac}, s);
    t := FreeStatic(c, {mac}, s, s, other, i);
  }

  /** Whatever refers to i from elsewhere frees it under the client. */
  lemma ReferredIsFreed(c: Config, s: State, mac: Mac, i: nat)
    requires Dynamic(c, s, mac, i) && (!Alone(s, i, mac) || (StaticClientAt(c, i) && c.AddressOf(i) != 0))
    ensures !NeverFreedUnder(c, s, mac, i)
  {
    var t: State;
    if StaticClientAt(c, i) && c.AddressOf(i) != 0 {
      var other :| ClientMac(other) && StaticAt(c, other, i);
      t := StaticFrees(c, s, mac, i, other);
    } else if timer :| timer in s.timers && timer.index == i {
      t := TimerFrees(c, s, mac, i, timer);
    } else {
      var other :| other in s.leases && other != mac && s.leases[other].value == i;
      t := EntryFrees(c, s, mac, i, other);
    }
    FreedUnder(c, s, t, mac, i);
  }

  /** A lease for an index other than 0 is never freed under its client if and only if no timer is on the
      index, no other client has an entry for it, and no client has it as its static position. */
  lemma NeverFreedIff(c: Config, s: State, mac: Mac, i: nat)
    requires Dynamic(c, s, mac, i) && i != 0
    ensures NeverFreedUnder(c, s, mac, i) <==> Alone(s, i, mac) && !StaticClientAt(c, i)
  {
    if Alone(s, i, mac) && !StaticClientAt(c, i) {
      HeldIsSafe(c, s, mac, i);
    } else {
      IndexRoundTrip(c.start, c.range, i);
      ReferredIsFreed(c, s, mac, i);
    }
  }
}
