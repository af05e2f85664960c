/** Clients do not disturb each other: a client whose lease entry and pool agree keeps its address,
    and an offer it got is acknowledged. */
module LeaseStability {
  import opened Basics
  import opened Address
  import opened Pool
  import opened Lease
  import opened LeaseEffects
  import opened LeaseAnswers
  import opened LeaseAcks
  import opened LeaseCoverage

  /** The lease cache and the pool agree that index i is the client's. */
  ghost predicate Agree(s: State, mac: Mac, i: nat) {
    HoldsLease(s, mac, i) && i in s.pool.mac && s.pool.mac[i] == mac
  }

  /** The event ends the agreement: the entry is dropped or the index freed. */
  predicate Ends(e: Event, mac: Mac, i: nat) {
    e == Dropped(mac, i) || FreesIndex(e, i)
  }

  /** If the event tells the client an address, it is that of i. */
  predicate Consistent(c: Config, e: Event, mac: Mac, i: nat) {
    e.Answered? && e.mac == mac ==>
      match e.answer
      case Offer(ip) => ip == c.AddressOf(i)
      case Ack(ip) => ip == c.AddressOf(i)
      case Silent => true
      case Nak => true
  }

  /** From s to t the log gained only consistent events, and unless one of them ends it the agreement holds. */
  ghost predicate Stable(c: Config, s: State, t: State, mac: Mac, i: nat) {
    && |s.log| <= |t.log|
    && (forall k :: 0 <= k < |s.log| ==> t.log[k] == s.log[k])
    && (forall k :: |s.log| <= k < |t.log| ==> Consistent(c, t.log[k], mac, i))
    && ((forall k :: |s.log| <= k < |t.log| ==> !Ends(t.log[k], mac, i)) ==> Agree(t, mac, i))
  }

  /** What the parties of the agreement require of a step. */
  ghost predicate Dynamic(c: Config, s: State, mac: Mac, i: nat) {
    PoolReady(c, s) && ClientMac(mac) && !c.Static(mac) && Agree(s, mac, i)
  }

  lemma OtherClient(c: Config, s: State, m: Message, pick: nat, probes: seq<bool>, mac: Mac, i: nat)
    requires Dynamic(c, s, mac, i) && Enabled(s, Serve(m, pick, probes)) && m.mac != mac
    ensures Stable(c, s, Apply(c, s, Serve(m, pick, probes)), mac, i)
  {
    RespondFrame(c, s, m, pick, probes);
  }

  /** One more consistent event in an agreeing state. */
  lemma LoggedStable(c: Config, s: State, t: State, e: Event, mac: Mac, i: nat)
    requires t.log == s.log + [e] && Consistent(c, e, mac, i)
    requires Agree(t, mac, i) || Ends(e, mac, i)
    ensures Stable(c, s, t, mac, i)
  {
    assert t.log[|s.log|] == e;
  }

  lemma DroppedStable(c: Config, s: State, mac: Mac, i: nat)
    requires HoldsLease(s, mac, i)
    ensures Stable(c, s, s.DeleteLease(mac), mac, i)
    ensures Stable(c, s, s.DeleteLease(mac).Log(Answered(mac, Nak)), mac, i)
  {
    assert s.DeleteLease(mac).log[|s.log|] == Dropped(mac, i);
    assert s.DeleteLease(mac).Log(Answered(mac, Nak)).log[|s.log|] == Dropped(mac, i);
  }

  lemma OwnRequest(c: Config, s: State, m: Message, i: nat)
    requires Dynamic(c, s, m.mac, i) && s.LeaseOf(m.mac).Some?
    ensures var r := Request(c, s, m); Stable(c, s, r.s.Log(Answered(m.mac, r.answer)), m.mac, i)
  {
    var r := Request(c, s, m);
    var ip, j := RequestShape(c, s, m);
    var e := Answered(m.mac, r.answer);
    if Granted(c, s, m, r, ip, j) {
      LoggedStable(c, s, r.s.Log(e), e, m.mac, i);
    } else if r.s == s.(requests := r.s.requests) {
      LoggedStable(c, s, r.s.Log(e), e, m.mac, i);
    } else {
      RequestDrops(c, s, m);
      DroppedStable(c, s, m.mac, i);
    }
  }

  /** An entry is dropped only together with a NAK. */
  lemma RequestDrops(c: Config, s: State, m: Message)
    requires c.Valid() && Request(c, s, m).s == s.DeleteLease(m.mac) && m.mac in s.leases
    ensures Request(c, s, m).answer == Nak
  {
  }

  lemma OwnGiveBack(c: Config, s: State, m: Message, cause: Cause, i: nat)
    requires Dynamic(c, s, m.mac, i)
    ensures Stable(c, s, GiveBack(c, s, m, cause).Log(Answered(m.mac, Silent)), m.mac, i)
  {
    GiveBackKeeps(c, s, m, cause);
    GiveBackFrame(c, s, m, cause);
  }

  lemma OwnMessage(c: Config, s: State, m: Message, pick: nat, probes: seq<bool>, i: nat)
    requires Dynamic(c, s, m.mac, i) && s.LeaseOf(m.mac).Some?
    ensures var r := Handle(c, s, m, pick, probes); Stable(c, s, r.s.Log(Answered(m.mac, r.answer)), m.mac, i)
  {
    var r := Handle(c, s, m, pick, probes);
    var e := Answered(m.mac, r.answer);
    match m.kind
    case DiscoverKind =>
      assert r == Reply(s.SetLease(m.mac, i, OFFER_TTL), Offer(c.AddressOf(i)));
      LoggedStable(c, s, r.s.Log(e), e, m.mac, i);
    case RequestKind => OwnRequest(c, s, m, i);
    case InformKind => OwnRequest(c, s, m, i);
    case ReleaseKind => OwnGiveBack(c, s, m, ByRelease, i);
    case DeclineKind => OwnGiveBack(c, s, m, ByDecline, i);
    case OfferKind => LoggedStable(c, s, r.s.Log(e), e, m.mac, i);
    case AckKind => LoggedStable(c, s, r.s.Log(e), e, m.mac, i);
    case NakKind => LoggedStable(c, s, r.s.Log(e), e, m.mac, i);
  }

  /** The step is a message of the client itself while its entry is expired. */
  ghost predicate ServedExpired(s: State, step: Step, mac: Mac) {
    step.Serve? && step.m.mac == mac && s.LeaseOf(mac).None?
  }

  lemma OwnServe(c: Config, s: State, m: Message, pick: nat, probes: seq<bool>, i: nat)
    requires Dynamic(c, s, m.mac, i) && s.LeaseOf(m.mac).Some?
    ensures Stable(c, s, Apply(c, s, Serve(m, pick, probes)), m.mac, i)
  {
    if Duplicate(c, s, m) {
      LoggedStable(c, s, s.Log(Answered(m.mac, Silent)), Answered(m.mac, Silent), m.mac, i);
    } else {
      OwnMessage(c, Entered(c, s, m), m, pick, probes, i);
    }
  }

  lemma DropStep(c: Config, s: State, k: Mac, mac: Mac, i: nat)
    requires Agree(s, mac, i)
    ensures Stable(c, s, s.DeleteLease(k), mac, i)
  {
    if k == mac {
      DroppedStable(c, s, mac, i);
    }
  }

  /** No step of anybody breaks an agreement without saying so in the log. */
  lemma StepStable(c: Config, s: State, step: Step, mac: Mac, i: nat)
    requires Dynamic(c, s, mac, i) && Enabled(s, step) && !ServedExpired(s, step, mac)
    ensures Stable(c, s, Apply(c, s, step), mac, i)
  {
    match step
    case Serve(m, pick, probes) =>
      if m.mac != mac {
        OtherClient(c, s, m, pick, probes, mac, i);
      } else {
        OwnServe(c, s, m, pick, probes, i);
      }
    case Evict(k) => DropStep(c, s, k, mac, i);
    case Delete(k) => DropStep(c, s.(deletes := s.deletes - multiset{k}), k, mac, i);
    case Fire(t) =>
      LoggedStable(c, s, FireTimer(s, t), Fired(t, s.now, s.pool.CanFree(t.index)), mac, i);
    case ApiRelease(k) => ApiReleaseStable(c, s, k, mac, i);
    case Tick(_) =>
  }

  lemma ApiReleaseStable(c: Config, s: State, k: Mac, mac: Mac, i: nat)
    requires Agree(s, mac, i)
    ensures Stable(c, s, ApiReleased(c, s, k), mac, i)
  {
  }

  /** Nothing after position `from` of the log ends the agreement. */
  ghost predicate Undisturbed(log: seq<Event>, from: nat, mac: Mac, i: nat) {
    forall k :: from <= k < |log| ==> !Ends(log[k], mac, i)
  }

  lemma StableTransitive(c: Config, a: State, b: State, d: State, mac: Mac, i: nat)
    requires Stable(c, a, b, mac, i) && Stable(c, b, d, mac, i)
    ensures Stable(c, a, d, mac, i)
  {
  }

  /** Stability: once entry and pool agree on i, nothing any client does breaks the agreement, and
      every address the client is told is that of i, until i is freed, the entry is dropped, or
      the client is served with an expired entry. */
  lemma {:induction false} RunStable(c: Config, ss: seq<State>, steps: seq<Step>, a: nat, n: nat, mac: Mac, i: nat)
    requires Run(c, ss, steps) && a <= n <= |steps| && Dynamic(c, ss[a], mac, i)
    requires forall k {:trigger steps[k]} :: a <= k < n ==> !ServedExpired(ss[k], steps[k], mac)
    requires Undisturbed(ss[n].log, |ss[a].log|, mac, i)
    ensures Stable(c, ss[a], ss[n], mac, i) && Agree(ss[n], mac, i)
    decreases n
  {
    if a < n {
      RunReadyFrom(c, ss, steps, a, n - 1);
      assert ss[n] == Apply(c, ss[n - 1], steps[n - 1]);
      UndisturbedBefore(c, ss[n - 1], steps[n - 1], |ss[a].log|, mac, i);
      RunStable(c, ss, steps, a, n - 1, mac, i);
      ExtendStable(c, ss[a], ss[n - 1], steps[n - 1], mac, i);
    }
  }

  lemma UndisturbedBefore(c: Config, s: State, step: Step, from: nat, mac: Mac, i: nat)
    requires PoolReady(c, s) && Enabled(s, step) && Undisturbed(Apply(c, s, step).log, from, mac, i)
    ensures Undisturbed(s.log, from, mac, i)
  {
    LogOnlyGrows(c, s, step);
    forall k | from <= k < |s.log|
      ensures !Ends(s.log[k], mac, i)
    {
      assert Apply(c, s, step).log[k] == s.log[k];
    }
  }

  lemma ExtendStable(c: Config, a: State, b: State, step: Step, mac: Mac, i: nat)
    requires Stable(c, a, b, mac, i) && Dynamic(c, b, mac, i)
    requires Enabled(b, step) && !ServedExpired(b, step, mac)
    requires Undisturbed(Apply(c, b, step).log, |a.log|, mac, i)
    ensures Stable(c, a, Apply(c, b, step), mac, i) && Agree(Apply(c, b, step), mac, i)
  {
    StepStable(c, b, step, mac, i);
    StableTransitive(c, a, b, Apply(c, b, step), mac, i);
  }

  // ---------- The exchange of offer and acknowledgement ----------

  lemma {:induction false} RetryOffer(c: Config, s: State, m: Message, free: Option<nat>, firstTry: bool, pick: nat, probes: seq<bool>)
    requires GoodArguments(c, s, free, pick) && ClientMac(m.mac)
    requires Retry(c, s, m, free, firstTry, pick, probes).answer.Offer?
    ensures var r := Retry(c, s, m, free, firstTry, pick, probes);
            m.mac in r.s.leases &&
            var e := r.s.leases[m.mac];
            && r.answer == Offer(c.AddressOf(e.value)) && e.value < c.range && e.expires == s.now + OFFER_TTL
            && (free.None? && (probes == [] || !probes[0]) ==> r.s.pool.Owner(e.value) == m.mac)
            && (probes != [] && probes[0] ==> e.value == 0)
            && (free.Some? && !firstTry ==> e.value == 0)
    decreases |probes|, firstTry
  {
    ChooseEffect(c, s, m, free, firstTry, pick);
    match Choose(c, s.pool, m, free, firstTry, pick)
    case GiveUp =>
    case TryAgain => RetryOffer(c, s, m, free, false, pick, probes);
    case Chosen(p, i) =>
      if probes != [] && probes[0] {
        var l := Locked(c, s, m, p, i);
        LockedFrame(c, s, m, p, i);
        ConflictFrame(l, m, i);
        RetryOffer(c, Conflict(l, m, i), m, Some(0), false, pick, probes[1..]);
      } else {
        OfferedLease(c, s, m, p, i);
      }
  }

  lemma OfferedLease(c: Config, s: State, m: Message, p: PoolState, i: nat)
    ensures var t := Offered(c, Locked(c, s, m, p, i), m, i);
            m.mac in t.leases && t.leases[m.mac] == Cached(i, s.now + OFFER_TTL) && t.pool == p
  {
  }

  /** An offer puts a five second entry for the offered index into the cache; the client owns the
      index, except that after a probe conflict the offer is index 0, owned by whomever. */
  lemma OfferedEntry(c: Config, s: State, m: Message, pick: nat, probes: seq<bool>)
    requires PoolReady(c, s) && Enabled(s, Serve(m, pick, probes))
    requires m.kind == DiscoverKind && !c.Static(m.mac)
    requires Respond(c, s, m, pick, probes).answer.Offer?
    ensures var r := Respond(c, s, m, pick, probes);
            m.mac in r.s.leases &&
            var e := r.s.leases[m.mac];
            && r.answer == Offer(c.AddressOf(e.value)) && e.value < c.range && e.expires == s.now + OFFER_TTL
            && (r.s.pool.Owner(e.value) == m.mac || (e.value == 0 && probes != [] && probes[0]))
  {
    var n := Entered(c, s, m);
    var d := n.DeleteLease(m.mac);
    match n.LeaseOf(m.mac)
    case None => RetryOffer(c, n, m, None, true, pick, probes);
    case Some(x) =>
      if n.pool.Owner(x) != m.mac {
        if n.pool.Owner(x) != FREE_MAC {
          RetryOffer(c, n, m, None, true, pick, probes);
        } else if !d.pool.CanReserve(x) {
          DeleteFrame(n, m.mac);
          RetryOffer(c, d, m, None, true, pick, probes);
        }
      }
  }

  /** A fresh request for the address of index i, in option 50 or ciaddr, with option 54 absent, malformed or
      naming this server. */
  ghost predicate Asks(c: Config, s: State, m: Message, i: nat) {
    && m.kind == RequestKind && WantsIndex(c, m, i) && ForUs(c, m)
    && !InProgress(c, s, m) && !Decided(c, s, m)
  }

  /** A client with a live entry is ACKed if and only if it owns the index in the pool. */
  lemma AckedIffOwner(c: Config, s: State, m: Message, pick: nat, probes: seq<bool>, i: nat)
    requires PoolReady(c, s) && ClientMac(m.mac) && !c.Static(m.mac)
    requires s.LeaseOf(m.mac) == Some(i) && i < c.range && Asks(c, s, m, i)
    ensures Respond(c, s, m, pick, probes).answer ==
            if s.pool.Owner(i) == m.mac then Ack(c.AddressOf(i)) else Nak
  {
    MatchingDecided(c, s, m, pick, probes, i);
    IndexRoundTrip(c.start, c.range, i);
  }

  lemma ZeroConflictPool(c: Config, s: State, m: Message)
    ensures Conflict(Locked(c, s, m, s.pool, 0), m, 0).pool == s.pool.Reserve(0, FAKE_MAC)
    ensures s.pool.Reserve(0, FAKE_MAC).Reserve(0, FAKE_MAC) == s.pool.Reserve(0, FAKE_MAC)
  {
  }

  /** The loop after a conflict puts index 0 aside if it is free, and changes nothing else in the pool. */
  lemma {:induction false} TailPool(c: Config, s: State, m: Message, probes: seq<bool>)
    ensures var p := Tail(c, s, m, probes).s.pool; p == s.pool || p == s.pool.Reserve(0, FAKE_MAC)
    decreases |probes|
  {
    OfferedLease(c, s, m, s.pool, 0);
    if s.pool.free != {} && probes != [] && probes[0] {
      ZeroConflictPool(c, s, m);
      TailPool(c, Conflict(Locked(c, s, m, s.pool, 0), m, 0), m, probes[1..]);
    }
  }

  lemma TailOwner(c: Config, s: State, m: Message, probes: seq<bool>)
    requires PoolReady(c, s) && ClientMac(m.mac)
    ensures Tail(c, s, m, probes).s.pool.Owner(0) == m.mac <==> s.pool.Owner(0) == m.mac
  {
    TailPool(c, s, m, probes);
  }

  /** After a conflict the client owns index 0 exactly if it did after the first choice. */
  lemma ConflictOwner(c: Config, s: State, m: Message, pick: nat, probes: seq<bool>)
    requires GoodArguments(c, s, None, pick) && ClientMac(m.mac) && probes != [] && probes[0]
    requires Retry(c, s, m, None, true, pick, probes).answer.Offer?
    ensures var r := FirstChoice(c, s.pool, m, pick);
            r.Chosen? && (Retry(c, s, m, None, true, pick, probes).s.pool.Owner(0) == m.mac <==> r.pool.Owner(0) == m.mac)
  {
    RetryIsSearch(c, s, m, pick, probes);
    FirstChoiceEffect(c, s, m, pick);
    var r := FirstChoice(c, s.pool, m, pick);
    var l := Locked(c, s, m, r.pool, r.index);
    LockedFrame(c, s, m, r.pool, r.index);
    ConflictFrame(l, m, r.index);
    TailOwner(c, Conflict(l, m, r.index), m, probes[1..]);
  }

  /** An offer made in this state will be honoured: it comes from a live entry, the first probe is not
      answered, or the client has index 0 once the first choice is made. */
  predicate WillHonour(c: Config, s: State, m: Message, pick: nat, probes: seq<bool>) {
    Searches(c, s, m) && probes != [] && probes[0] ==>
      var r := FirstChoice(c, s.pool, m, pick);
      r.Chosen? && r.pool.Owner(0) == m.mac
  }

  lemma DiscoverOwner(c: Config, s: State, m: Message, pick: nat, probes: seq<bool>)
    requires GoodArguments(c, s, None, pick) && ClientMac(m.mac) && !c.Static(m.mac)
    requires Discover(c, s, m, pick, probes).answer.Offer?
    ensures var t := Discover(c, s, m, pick, probes).s;
            m.mac in t.leases && (t.pool.Owner(t.leases[m.mac].value) == m.mac <==> WillHonour(c, s, m, pick, probes))
  {
    if Searches(c, s, m) {
      var b := SearchFrom(s, m);
      DiscoverIsRetry(c, s, m, pick, probes);
      RetryOffer(c, b, m, None, true, pick, probes);
      if probes != [] && probes[0] {
        ConflictOwner(c, b, m, pick, probes);
      }
    }
  }

  /** What an offer of index i leaves: the entry for i, and i owned exactly if the offer will be honoured. */
  lemma OfferLeaves(c: Config, s: State, m: Message, pick: nat, probes: seq<bool>, i: nat)
    requires PoolReady(c, s) && Enabled(s, Serve(m, pick, probes)) && m.kind == DiscoverKind && !c.Static(m.mac)
    requires Respond(c, s, m, pick, probes).answer == Offer(c.AddressOf(i)) && i < c.range
    ensures var t := Respond(c, s, m, pick, probes).s;
            && PoolReady(c, t) && t.now == s.now && m.mac in t.leases && t.leases[m.mac] == Cached(i, s.now + OFFER_TTL)
            && (t.pool.Owner(i) == m.mac <==> WillHonour(c, s, m, pick, probes))
  {
    var t := Respond(c, s, m, pick, probes).s;
    OfferedEntry(c, s, m, pick, probes);
    DiscoverOwner(c, Entered(c, s, m), m, pick, probes);
    IndexRoundTrip(c.start, c.range, i);
    IndexRoundTrip(c.start, c.range, t.leases[m.mac].value);
    RespondFrame(c, s, m, pick, probes);
  }

  /** Exactly which offers are honoured, known before the Discover: the request following the offer at once
      is ACKed if `WillHonour` holds and refused with a NAK otherwise. */
  lemma OfferHonouredIff(c: Config, s: State, m: Message, pick: nat, probes: seq<bool>, q: Message, i: nat)
    requires PoolReady(c, s) && Enabled(s, Serve(m, pick, probes))
    requires m.kind == DiscoverKind && !c.Static(m.mac) && q.mac == m.mac
    requires Respond(c, s, m, pick, probes).answer == Offer(c.AddressOf(i)) && i < c.range
    requires Asks(c, Respond(c, s, m, pick, probes).s, q, i)
    ensures Respond(c, Respond(c, s, m, pick, probes).s, q, pick, []).answer ==
            if WillHonour(c, s, m, pick, probes) then Ack(c.AddressOf(i)) else Nak
  {
    OfferLeaves(c, s, m, pick, probes, i);
    AckedIffOwner(c, Respond(c, s, m, pick, probes).s, q, pick, [], i);
  }

  /** The step that offers index i without probe conflict leaves it with the client. */
  lemma OfferStep(c: Config, s: State, step: Step, i: nat)
    requires PoolReady(c, s) && Enabled(s, step) && step.Serve?
    requires step.m.kind == DiscoverKind && !c.Static(step.m.mac) && i < c.range
    requires step.probes == [] || !step.probes[0]
    requires Respond(c, s, step.m, step.pick, step.probes).answer == Offer(c.AddressOf(i))
    ensures PoolReady(c, Apply(c, s, step)) && Dynamic(c, Apply(c, s, step), step.m.mac, i)
  {
    OfferedEntry(c, s, step.m, step.pick, step.probes);
    RespondFrame(c, s, step.m, step.pick, step.probes);
    IndexRoundTrip(c.start, c.range, i);
    IndexRoundTrip(c.start, c.range, Apply(c, s, step).leases[step.m.mac].value);
  }

  /** Exchange completeness: after an offer without probe conflict, the client's fresh request for the
      offered address is ACKed, whatever other clients, timers and the API did in between, as long
      as the index was not freed and the entry neither dropped nor expired. */
  lemma ExchangeCompletes(c: Config, ss: seq<State>, steps: seq<Step>, a: nat, n: nat, i: nat, q: Message)
    requires Run(c, ss, steps) && a < n <= |steps| && PoolReady(c, ss[a])
    requires steps[a].Serve? && steps[a].m.kind == DiscoverKind && !c.Static(steps[a].m.mac)
    requires steps[a].probes == [] || !steps[a].probes[0]
    requires i < c.range
    requires Respond(c, ss[a], steps[a].m, steps[a].pick, steps[a].probes).answer == Offer(c.AddressOf(i))
    requires forall k :: a < k < n ==> !(steps[k].Serve? && steps[k].m.mac == steps[a].m.mac)
    requires Undisturbed(ss[n].log, |ss[a + 1].log|, steps[a].m.mac, i)
    requires q.mac == steps[a].m.mac && ss[n].LeaseOf(q.mac).Some? && Asks(c, ss[n], q, i)
    ensures Respond(c, ss[n], q, 0, []).answer == Ack(c.AddressOf(i))
  {
    var m := steps[a].m;
    OfferStep(c, ss[a], steps[a], i);
    RunReadyFrom(c, ss, steps, a, n);
    RunStable(c, ss, steps, a + 1, n, m.mac, i);
    AckedIffOwner(c, ss[n], q, 0, [], i);
  }
}
