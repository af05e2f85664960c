/** How long the pool keeps an index for its owner, and exactly which offers are honoured for five
    seconds. */
module LeaseOffer {
  import opened Basics
  import opened Address
  import opened Lease
  import opened LeaseEffects
  import opened LeaseAnswers
  import opened LeaseTimers
  import opened LeaseStability
  import opened LeaseWitness

  /** No pending timer on i is due by the given time. */
  ghost predicate NoTimerBy(s: State, i: nat, time: int) {
    forall x :: x in s.timers && x.index == i ==> x.due > time
  }

  /** Within thirty seconds only a timer that is pending already can free an index. */
  lemma OwnerKeptStep(c: Config, s: State, step: Step, i: nat, o: Mac, time: int)
    requires PoolReady(c, s) && Enabled(s, step) && OwnedBy(s, i, o) && NoTimerBy(s, i, time)
    requires Apply(c, s, step).now <= time < s.now + EVICTION_DELAY
    ensures OwnedBy(Apply(c, s, step), i, o) && NoTimerBy(Apply(c, s, step), i, time)
    ensures s.now <= Apply(c, s, step).now
  {
    ApplyLate(c, s, step);
    if step.Serve? {
      RespondFrame(c, s, step.m, step.pick, step.probes);
    }
  }

  lemma {:induction false} TimeOfRun(c: Config, ss: seq<State>, steps: seq<Step>, a: nat, n: nat)
    requires Run(c, ss, steps) && a <= n <= |steps|
    ensures ss[a].now <= ss[n].now
    decreases n
  {
    if a < n {
      TimeOfRun(c, ss, steps, a, n - 1);
      ApplyLate(c, ss[n - 1], steps[n - 1]);
    }
  }

  lemma {:induction false} OwnerKept(c: Config, ss: seq<State>, steps: seq<Step>, n: nat, i: nat, o: Mac, time: int)
    requires Run(c, ss, steps) && n <= |steps| && PoolReady(c, ss[0])
    requires OwnedBy(ss[0], i, o) && NoTimerBy(ss[0], i, time) && ss[n].now <= time < ss[0].now + EVICTION_DELAY
    ensures OwnedBy(ss[n], i, o) && NoTimerBy(ss[n], i, time)
  {
    if n > 0 {
      RunReadyFrom(c, ss, steps, 0, n - 1);
      TimeOfRun(c, ss, steps, 0, n - 1);
      assert ss[n] == Apply(c, ss[n - 1], steps[n - 1]);
      ApplyLate(c, ss[n - 1], steps[n - 1]);
      OwnerKept(c, ss, steps, n - 1, i, o, time);
      OwnerKeptStep(c, ss[n - 1], steps[n - 1], i, o, time);
    }
  }

  /** Whatever happens, the pool records i for o until the given time. */
  ghost predicate KeptUntil(c: Config, s: State, i: nat, o: Mac, time: int) {
    forall ss: seq<State>, steps: seq<Step> ::
      Run(c, ss, steps) && ss[0] == s && ss[|steps|].now <= time ==> OwnedBy(ss[|steps|], i, o)
  }

  /** For the next thirty seconds an index stays with its owner, in every run of any steps, if and only if no
      timer pending on it is due by then. */
  lemma KeptUntilIff(c: Config, s: State, i: nat, o: Mac, time: int)
    requires PoolReady(c, s) && OwnedBy(s, i, o) && s.now <= time < s.now + EVICTION_DELAY
    ensures KeptUntil(c, s, i, o, time) <==> NoTimerBy(s, i, time)
  {
    if NoTimerBy(s, i, time) {
      forall ss: seq<State>, steps: seq<Step> | Run(c, ss, steps) && ss[0] == s && ss[|steps|].now <= time
        ensures OwnedBy(ss[|steps|], i, o)
      {
        OwnerKept(c, ss, steps, |steps|, i, o, time);
      }
    } else {
      var x :| x in s.timers && x.index == i && x.due <= time;
      ReachStart(c, {}, s);
      var t := ReachPending(c, {}, s, s, x);
      ReachReady(c, {}, s, t);
      var ss, steps :| SparingRun(c, {}, s, t, ss, steps);
      assert !OwnedBy(ss[|steps|], i, o);
    }
  }

  // ---------- The entry of an offer ----------

  /** The client's entry is there, live, and no deferred delete is pending for it. */
  ghost predicate Live(s: State, mac: Mac, e: Cached<nat>) {
    mac in s.leases && s.leases[mac] == e && s.now <= e.expires && mac !in s.deletes
  }

  /** Until it expires an entry survives every step that spares its client. */
  lemma LiveStep(c: Config, s: State, step: Step, mac: Mac, e: Cached<nat>)
    requires PoolReady(c, s) && Enabled(s, step) && Spares(step, {mac})
    requires Live(s, mac, e) && Apply(c, s, step).now <= e.expires
    ensures Live(Apply(c, s, step), mac, e)
  {
    DeletesAreOwn(c, s, step, mac);
    if step.Serve? {
      RespondFrame(c, s, step.m, step.pick, step.probes);
    }
  }

  lemma {:induction false} LiveRun(c: Config, ss: seq<State>, steps: seq<Step>, n: nat, mac: Mac, e: Cached<nat>)
    requires Run(c, ss, steps) && n <= |steps| && PoolReady(c, ss[0])
    requires forall k {:trigger steps[k]} :: 0 <= k < n ==> Spares(steps[k], {mac})
    requires Live(ss[0], mac, e) && ss[n].now <= e.expires
    ensures Live(ss[n], mac, e)
  {
    if n > 0 {
      RunReadyFrom(c, ss, steps, 0, n - 1);
      assert ss[n] == Apply(c, ss[n - 1], steps[n - 1]);
      ApplyLate(c, ss[n - 1], steps[n - 1]);
      LiveRun(c, ss, steps, n - 1, mac, e);
      LiveStep(c, ss[n - 1], steps[n - 1], mac, e);
    }
  }

  // ---------- Exactly which offers are honoured for five seconds ----------

  /** Whenever the client asks for index i by the given time, whatever others, timers and the API did in
      between, short of an API release of this client, it is ACKed. */
  ghost predicate Guaranteed(c: Config, s: State, mac: Mac, i: nat, time: int) {
    forall t: State, q: Message :: Leads(c, {mac}, s, t) && t.now <= time && q.mac == mac && Asks(c, t, q, i) ==>
      Respond(c, t, q, 0, []).answer == Ack(c.AddressOf(i))
  }

  /** The condition, known when the Discover is served. */
  ghost predicate Reliable(c: Config, s: State, m: Message, pick: nat, probes: seq<bool>, i: nat) {
    WillHonour(c, s, m, pick, probes) && m.mac !in s.deletes && NoTimerBy(s, i, s.now + OFFER_TTL)
  }

  /** The step is a Discover of a client without static assignment that is offered index i. */
  ghost predicate Offers(c: Config, s: State, step: Step, i: nat) {
    && PoolReady(c, s) && Enabled(s, step) && step.Serve? && step.m.kind == DiscoverKind && !c.Static(step.m.mac)
    && i < c.range && Respond(c, s, step.m, step.pick, step.probes).answer == Offer(c.AddressOf(i))
  }

  /** What an offer leaves behind. */
  lemma AfterOffer(c: Config, s: State, step: Step, i: nat)
    requires Offers(c, s, step, i)
    ensures var t, mac := Apply(c, s, step), step.m.mac;
            && PoolReady(c, t) && t.now == s.now && t.deletes == s.deletes && Late(s, t) && s.timers <= t.timers
            && mac in t.leases && t.leases[mac] == Cached(i, s.now + OFFER_TTL)
            && (t.pool.Owner(i) == mac <==> WillHonour(c, s, step.m, step.pick, step.probes))
  {
    OfferLeaves(c, s, step.m, step.pick, step.probes, i);
    DiscoverCalm(c, Entered(c, s, step.m), step.m, step.pick, step.probes);
    RespondFrame(c, s, step.m, step.pick, step.probes);
  }

  lemma ReliableHonoured(c: Config, s: State, step: Step, i: nat)
    requires Offers(c, s, step, i) && Reliable(c, s, step.m, step.pick, step.probes, i)
    ensures Guaranteed(c, Apply(c, s, step), step.m.mac, i, s.now + OFFER_TTL)
  {
    var a, mac, time := Apply(c, s, step), step.m.mac, s.now + OFFER_TTL;
    AfterOffer(c, s, step, i);
    forall t: State, q: Message | Leads(c, {mac}, a, t) && t.now <= time && q.mac == mac && Asks(c, t, q, i)
      ensures Respond(c, t, q, 0, []).answer == Ack(c.AddressOf(i))
    {
      StillHonoured(c, a, t, mac, i, time);
      AckedIffOwner(c, t, q, 0, [], i);
    }
  }

  lemma StillHonoured(c: Config, a: State, t: State, mac: Mac, i: nat, time: int)
    requires Leads(c, {mac}, a, t) && t.now <= time < a.now + EVICTION_DELAY
    requires Live(a, mac, Cached(i, time)) && OwnedBy(a, i, mac) && NoTimerBy(a, i, time)
    ensures PoolReady(c, t) && t.LeaseOf(mac) == Some(i) && OwnedBy(t, i, mac)
  {
    ReachReady(c, {mac}, a, t);
    var ss, steps :| SparingRun(c, {mac}, a, t, ss, steps);
    LiveRun(c, ss, steps, |steps|, mac, Cached(i, time));
    OwnerKept(c, ss, steps, |steps|, i, mac, time);
  }

  /** A request for i that no mark suppresses, two seconds after all marks were short. */
  lemma FreshAsk(c: Config, t: State, mac: Mac, i: nat) returns (q: Message)
    requires c.Valid() && i < c.range && c.AddressOf(i) != 0
    requires forall k :: k in t.transactions ==> t.transactions[k].expires < t.now
    requires forall k :: k in t.requests ==> t.requests[k].expires < t.now
    ensures q.mac == mac && Asks(c, t, q, i)
  {
    IndexRoundTrip(c.start, c.range, i);
    q := Message(RequestKind, mac, 0, None, c.AddressOf(i), None);
  }

  /** Two or more seconds pass, so all marks have expired. */
  lemma WaitForMarks(c: Config, s: State, mac: Mac, d: nat) returns (t: State)
    requires PoolReady(c, s) && MarksShort(s) && d >= 2 * SECOND
    ensures Leads(c, {mac}, s, t) && t == s.(now := s.now + d)
    ensures forall k :: k in t.transactions ==> t.transactions[k].expires < t.now
    ensures forall k :: k in t.requests ==> t.requests[k].expires < t.now
  {
    ReachStart(c, {mac}, s);
    t := ReachTick(c, {mac}, s, s, d);
  }

  /** An offer without the pool's backing is refused. */
  lemma UnbackedRefused(c: Config, a: State, mac: Mac, i: nat, time: int)
    requires PoolReady(c, a) && MarksShort(a) && ClientMac(mac) && !c.Static(mac) && i < c.range && c.AddressOf(i) != 0
    requires mac in a.leases && a.leases[mac] == Cached(i, time) && time == a.now + OFFER_TTL && a.pool.Owner(i) != mac
    ensures !Guaranteed(c, a, mac, i, time)
  {
    var t := WaitForMarks(c, a, mac, 2 * SECOND);
    var q := FreshAsk(c, t, mac, i);
    AckedIffOwner(c, t, q, 0, [], i);
  }

  /** A pending deferred delete takes the entry away. */
  lemma DeleteRefused(c: Config, a: State, mac: Mac, i: nat, time: int)
    requires PoolReady(c, a) && MarksShort(a) && ClientMac(mac) && !c.Static(mac) && i < c.range && c.AddressOf(i) != 0
    requires mac in a.deletes && time == a.now + OFFER_TTL
    ensures !Guaranteed(c, a, mac, i, time)
  {
    var w := WaitForMarks(c, a, mac, 2 * SECOND);
    ReachStep(c, {mac}, a, w, Delete(mac));
    var t := Apply(c, w, Delete(mac));
    DeleteCalm(w.(deletes := w.deletes - multiset{mac}), mac);
    var q := FreshAsk(c, t, mac, i);
    NoEntryNoAck(c, t, q);
  }

  lemma NoEntryNoAck(c: Config, s: State, q: Message)
    requires !c.Static(q.mac) && q.kind == RequestKind && s.LeaseOf(q.mac).None?
    ensures !Respond(c, s, q, 0, []).answer.Ack?
  {
  }

  /** A timer due by the time frees the index under the offer. */
  lemma TimerRefused(c: Config, a: State, mac: Mac, i: nat, time: int, x: Timer)
    requires PoolReady(c, a) && MarksShort(a) && ClientMac(mac) && !c.Static(mac) && i < c.range && c.AddressOf(i) != 0
    requires mac in a.leases && a.leases[mac] == Cached(i, time) && time == a.now + OFFER_TTL
    requires x in a.timers && x.index == i && x.due <= time
    ensures !Guaranteed(c, a, mac, i, time)
  {
    var w := WaitForMarks(c, a, mac, if x.due < a.now + 2 * SECOND then 2 * SECOND else x.due - a.now);
    var t := ReachFire(c, {mac}, a, w, x);
    ReachReady(c, {mac}, a, t);
    var q := FreshAsk(c, t, mac, i);
    AckedIffOwner(c, t, q, 0, [], i);
  }

  /** Exactly which offers are honoured for the five seconds of their entry, whatever others do: those for which
      `Reliable` holds when the Discover is served, and offers of 0.0.0.0, which nobody can ask for. */
  lemma OfferGuaranteedIff(c: Config, s: State, step: Step, i: nat)
    requires Offers(c, s, step, i) && MarksShort(s)
    ensures Guaranteed(c, Apply(c, s, step), step.m.mac, i, s.now + OFFER_TTL) <==>
            Reliable(c, s, step.m, step.pick, step.probes, i) || c.AddressOf(i) == 0
  {
    var a, mac, time := Apply(c, s, step), step.m.mac, s.now + OFFER_TTL;
    AfterOffer(c, s, step, i);
    ApplyMarksShort(c, s, step);
    if Reliable(c, s, step.m, step.pick, step.probes, i) {
      ReliableHonoured(c, s, step, i);
    } else if c.AddressOf(i) == 0 {
      IndexRoundTrip(c.start, c.range, i);
      assert forall t: State, q: Message :: !Asks(c, t, q, i);
    } else if !WillHonour(c, s, step.m, step.pick, step.probes) {
      UnbackedRefused(c, a, mac, i, time);
    } else if mac in s.deletes {
      DeleteRefused(c, a, mac, i, time);
    } else {
      var x :| x in s.timers && x.index == i && x.due <= time;
      assert x in a.timers;
      TimerRefused(c, a, mac, i, time, x);
    }
  }
}
