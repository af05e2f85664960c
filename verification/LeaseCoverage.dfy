/** No address is lost: every index taken after configuration is on its way back, through the
    lease entry of its owner or through a pending timer. Exactly one situation breaks this: a
    Discover overwriting an expired entry that was not evicted yet. */
module LeaseCoverage {
  import opened Basics
  import opened Address
  import opened Pool
  import opened Lease
  import opened LeaseEffects

  ghost predicate HoldsLease(s: State, mac: Mac, i: nat) {
    mac in s.leases && s.leases[mac].value == i
  }

  /** Index i comes back by itself: a timer will free it, or its owner's entry will be evicted. */
  ghost predicate Covered(s: State, i: nat) {
    TimerOn(s, i) || (i in s.pool.mac && HoldsLease(s, s.pool.mac[i], i))
  }

  /** `base` are the indexes taken by the configuration. */
  ghost predicate Safe(s: State, base: set<nat>, i: nat) {
    i in base || Covered(s, i)
  }

  ghost predicate NoneLost(s: State, base: set<nat>) {
    forall i :: i in s.pool.mac ==> Safe(s, base, i)
  }

  /** From s to s' nothing safe or free becomes lost. */
  ghost predicate SafeKept(s: State, s': State, base: set<nat>) {
    forall i: nat :: i in s'.pool.mac && (i in s.pool.free || Safe(s, base, i)) ==> Safe(s', base, i)
  }

  lemma SafeKeptTransitive(a: State, b: State, d: State, base: set<nat>)
    requires SafeKept(a, b, base) && SafeKept(b, d, base)
    requires b.pool.Valid() && OwnersKept(b.pool, d.pool)
    ensures SafeKept(a, d, base)
  {
  }

  /** The entry of `mac`, if any, is the only cover of nothing. */
  ghost predicate Loose(s: State, mac: Mac, base: set<nat>) {
    mac in s.leases ==>
      var x := s.leases[mac].value;
      s.pool.Owner(x) != mac || TimerOn(s, x) || x in base
  }

  lemma TimerKept(s: State, s': State, i: nat)
    requires s.timers <= s'.timers && TimerOn(s, i)
    ensures TimerOn(s', i)
  {
  }

  lemma DeleteSafe(s: State, mac: Mac, base: set<nat>)
    requires s.pool.Valid()
    ensures SafeKept(s, s.DeleteLease(mac), base)
  {
  }

  /** Setting the entry of `mac` to i and taking i for it loses nothing when the old entry is loose. */
  lemma SetSafe(s: State, s': State, mac: Mac, i: nat, base: set<nat>)
    requires s.pool.Valid() && OwnersKept(s.pool, s'.pool) && Loose(s, mac, base)
    requires OtherLeasesKept(s, s', mac) && s.timers <= s'.timers
    requires HoldsLease(s', mac, i) && ClientMac(mac)
    requires forall j :: j in s'.pool.mac && j !in s.pool.mac ==> j == i && s'.pool.mac[j] == mac
    ensures SafeKept(s, s', base)
  {
  }

  lemma ConflictTimers(s: State, m: Message, i: nat)
    requires HoldsLease(s, m.mac, i)
    ensures TimerOn(Conflict(s, m, i), i)
    ensures forall j: nat :: j != i ==> (TimerOn(Conflict(s, m, i), j) <==> TimerOn(s, j))
  {
  }

  lemma ConflictSafe(s: State, m: Message, i: nat, base: set<nat>)
    requires s.pool.Valid() && HoldsLease(s, m.mac, i)
    ensures SafeKept(s, Conflict(s, m, i), base) && m.mac !in Conflict(s, m, i).leases
  {
  }

  lemma LockedSafe(c: Config, s: State, m: Message, free: Option<nat>, firstTry: bool, pick: nat, base: set<nat>)
    requires GoodArguments(c, s, free, pick) && ClientMac(m.mac) && Loose(s, m.mac, base)
    requires Choose(c, s.pool, m, free, firstTry, pick).Chosen?
    ensures var r := Choose(c, s.pool, m, free, firstTry, pick);
            var l := Locked(c, s, m, r.pool, r.index);
            SafeKept(s, l, base) && HoldsLease(l, m.mac, r.index) && Frame(s, l, m.mac)
  {
    ChooseEffect(c, s, m, free, firstTry, pick);
    var r := Choose(c, s.pool, m, free, firstTry, pick);
    var l := Locked(c, s, m, r.pool, r.index);
    LockedFrame(c, s, m, r.pool, r.index);
    SetSafe(s, l, m.mac, r.index, base);
  }

  lemma OfferedSafe(c: Config, s: State, m: Message, i: nat, base: set<nat>)
    requires HoldsLease(s, m.mac, i) && s.pool.Valid()
    ensures SafeKept(s, Offered(c, s, m, i), base)
  {
  }

  /** One pass of the retry loop that ends in a conflict. */
  lemma ConflictPass(c: Config, s: State, m: Message, free: Option<nat>, firstTry: bool, pick: nat, base: set<nat>)
    requires GoodArguments(c, s, free, pick) && ClientMac(m.mac) && Loose(s, m.mac, base)
    requires Choose(c, s.pool, m, free, firstTry, pick).Chosen?
    ensures var r := Choose(c, s.pool, m, free, firstTry, pick);
            var k := Conflict(Locked(c, s, m, r.pool, r.index), m, r.index);
            SafeKept(s, k, base) && m.mac !in k.leases && Frame(s, k, m.mac)
  {
    var r := Choose(c, s.pool, m, free, firstTry, pick);
    var l := Locked(c, s, m, r.pool, r.index);
    LockedSafe(c, s, m, free, firstTry, pick, base);
    ConflictSafe(l, m, r.index, base);
    ConflictFrame(l, m, r.index);
    SafeKeptTransitive(s, l, Conflict(l, m, r.index), base);
    FrameTransitive(s, l, Conflict(l, m, r.index), m.mac);
  }

  /** One pass of the retry loop that ends in an offer. */
  lemma OfferPass(c: Config, s: State, m: Message, free: Option<nat>, firstTry: bool, pick: nat, base: set<nat>)
    requires GoodArguments(c, s, free, pick) && ClientMac(m.mac) && Loose(s, m.mac, base)
    requires Choose(c, s.pool, m, free, firstTry, pick).Chosen?
    ensures var r := Choose(c, s.pool, m, free, firstTry, pick);
            SafeKept(s, Offered(c, Locked(c, s, m, r.pool, r.index), m, r.index), base)
  {
    var r := Choose(c, s.pool, m, free, firstTry, pick);
    var l := Locked(c, s, m, r.pool, r.index);
    LockedSafe(c, s, m, free, firstTry, pick, base);
    OfferedSafe(c, l, m, r.index, base);
    SafeKeptTransitive(s, l, Offered(c, l, m, r.index), base);
  }

  lemma {:induction false} RetrySafe(c: Config, s: State, m: Message, free: Option<nat>, firstTry: bool, pick: nat, probes: seq<bool>, base: set<nat>)
    requires GoodArguments(c, s, free, pick) && ClientMac(m.mac) && Loose(s, m.mac, base)
    ensures SafeKept(s, Retry(c, s, m, free, firstTry, pick, probes).s, base)
    decreases |probes|, firstTry
  {
    match Choose(c, s.pool, m, free, firstTry, pick)
    case GiveUp =>
    case TryAgain =>
      if firstTry {
        RetrySafe(c, s, m, free, false, pick, probes, base);
      }
    case Chosen(p, i) =>
      if probes != [] && probes[0] {
        var k := Conflict(Locked(c, s, m, p, i), m, i);
        ConflictPass(c, s, m, free, firstTry, pick, base);
        RetrySafe(c, k, m, Some(0), false, pick, probes[1..], base);
        RetryFrame(c, k, m, Some(0), false, pick, probes[1..]);
        SafeKeptTransitive(s, k, Retry(c, k, m, Some(0), false, pick, probes[1..]).s, base);
      } else {
        OfferPass(c, s, m, free, firstTry, pick, base);
      }
  }

  /** The client has a present entry that is expired but still the only cover of its index. */
  ghost predicate Stale(s: State, mac: Mac, base: set<nat>) {
    s.LeaseOf(mac).None? && !Loose(s, mac, base)
  }

  lemma FoundFreeSafe(s: State, mac: Mac, x: nat, base: set<nat>)
    requires s.pool.Valid() && s.LeaseOf(mac) == Some(x)
    ensures SafeKept(s, s.DeleteLease(mac).WithPool(s.pool.Reserve(x, mac)), base)
  {
  }

  lemma DiscoverSafe(c: Config, s: State, m: Message, pick: nat, probes: seq<bool>, base: set<nat>)
    requires GoodArguments(c, s, None, pick) && ClientMac(m.mac)
    requires c.Static(m.mac) || !Stale(s, m.mac, base)
    ensures SafeKept(s, Discover(c, s, m, pick, probes).s, base)
  {
    if !c.Static(m.mac) {
      match s.LeaseOf(m.mac)
      case None => RetrySafe(c, s, m, None, true, pick, probes, base);
      case Some(x) =>
        var owner, d := s.pool.Owner(x), s.DeleteLease(m.mac);
        if owner == m.mac {
          RefreshSafe(s, m.mac, OFFER_TTL, base);
        } else if owner != FREE_MAC {
          RetrySafe(c, s, m, None, true, pick, probes, base);
        } else if d.pool.CanReserve(x) {
          FoundFreeSafe(s, m.mac, x, base);
        } else {
          DeleteSafe(s, m.mac, base);
          DeleteFrame(s, m.mac);
          RetrySafe(c, d, m, None, true, pick, probes, base);
          RetryFrame(c, d, m, None, true, pick, probes);
          SafeKeptTransitive(s, d, Retry(c, d, m, None, true, pick, probes).s, base);
        }
    }
  }

  /** Giving an entry a new expiry loses nothing. */
  lemma RefreshSafe(s: State, mac: Mac, ttl: int, base: set<nat>)
    requires s.LeaseOf(mac).Some? && s.pool.Valid()
    ensures SafeKept(s, s.SetLease(mac, s.LeaseOf(mac).value, ttl), base)
  {
  }

  /** The lease entry of a client with a static assignment is its position. */
  ghost predicate StaticLeases(c: Config, s: State) {
    forall k :: k in s.leases && c.Static(k) ==> s.leases[k].value == c.positions[k]
  }

  lemma AcknowledgeSafe(c: Config, s: State, m: Message, ip: u32, i: nat, base: set<nat>)
    requires PoolReady(c, s) && StaticLeases(c, s) && ClientMac(m.mac) && Earned(c, s, m, ip, i)
    ensures SafeKept(s, Acknowledge(c, s, m, ip, i).s, base)
  {
  }

  lemma RequestSafe(c: Config, s: State, m: Message, base: set<nat>)
    requires PoolReady(c, s) && StaticLeases(c, s) && ClientMac(m.mac)
    ensures SafeKept(s, Request(c, s, m).s, base)
  {
    var r := Request(c, s, m);
    var ip, i := RequestShape(c, s, m);
    DeleteSafe(s, m.mac, base);
    var s1 := s.(requests := r.s.requests);
    assert forall j: nat :: TimerOn(s1, j) <==> TimerOn(s, j);
    if Granted(c, s, m, r, ip, i) {
      AcknowledgeSafe(c, s1, m, ip, i, base);
    }
  }

  lemma GiveBackSafe(c: Config, s: State, m: Message, cause: Cause, base: set<nat>)
    requires PoolReady(c, s) && ClientMac(m.mac)
    ensures SafeKept(s, GiveBack(c, s, m, cause), base)
  {
    var s' := GiveBack(c, s, m, cause);
    GiveBackKeeps(c, s, m, cause);
    GiveBackFrame(c, s, m, cause);
    forall i: nat | i in s'.pool.mac && (i in s.pool.free || Safe(s, base, i))
      ensures Safe(s', base, i)
    {
      if TimerOn(s, i) {
        TimerKept(s, s', i);
      }
    }
  }

  /** A served Discover that overwrites a stale entry. */
  ghost predicate Overwrites(c: Config, s: State, step: Step, base: set<nat>) {
    && step.Serve? && step.m.kind == DiscoverKind && !Duplicate(c, s, step.m)
    && !c.Static(step.m.mac) && Stale(s, step.m.mac, base)
  }

  lemma RespondSafe(c: Config, s: State, m: Message, pick: nat, probes: seq<bool>, base: set<nat>)
    requires PoolReady(c, s) && StaticLeases(c, s) && Enabled(s, Serve(m, pick, probes))
    requires !Overwrites(c, s, Serve(m, pick, probes), base)
    ensures SafeKept(s, Respond(c, s, m, pick, probes).s, base)
  {
    if !Duplicate(c, s, m) {
      var n := Entered(c, s, m);
      assert forall j: nat :: TimerOn(n, j) <==> TimerOn(s, j);
      assert forall j: nat :: Covered(n, j) <==> Covered(s, j);
      match m.kind
      case DiscoverKind => DiscoverSafe(c, n, m, pick, probes, base);
      case RequestKind => RequestSafe(c, n, m, base);
      case InformKind => RequestSafe(c, n, m, base);
      case ReleaseKind => GiveBackSafe(c, n, m, ByRelease, base);
      case DeclineKind => GiveBackSafe(c, n, m, ByDecline, base);
      case OfferKind =>
      case AckKind =>
      case NakKind =>
    }
  }

  lemma NoneLostKept(s: State, s': State, base: set<nat>)
    requires NoneLost(s, base) && SafeKept(s, s', base) && s.pool.Valid() && OwnersKept(s.pool, s'.pool)
    ensures NoneLost(s', base)
  {
  }

  // ---------- Stale entries ----------

  /** The Discover finds an address other than x and does not come back to x as index 0. */
  ghost predicate Forgets(c: Config, p: PoolState, m: Message, x: nat, pick: nat, probes: seq<bool>) {
    var want := DiscoverWants(m);
    && p.free != {} && want != Malformed
    && !(want.Wants? && Position(c.start, want.ip) == x)
    && !(x == 0 && probes != [] && probes[0] && FirstChoice(c, p, m, pick).Chosen? && FirstChoice(c, p, m, pick).pool.free != {})
  }

  /** From s to t only index 0 gained timers, and the client's entry is for 0 or absent. */
  ghost predicate OnlyZero(s: State, t: State, mac: Mac) {
    && (forall j: nat :: j != 0 ==> (TimerOn(t, j) <==> TimerOn(s, j)))
    && (mac in t.leases ==> t.leases[mac].value == 0)
  }

  lemma ZeroConflict(c: Config, s: State, m: Message)
    requires s.pool.Valid()
    ensures var k := Conflict(Locked(c, s, m, s.pool, 0), m, 0);
            OnlyZero(s, k, m.mac) && TimerOn(k, 0) && m.mac !in k.leases && Frame(s, k, m.mac)
  {
  }

  lemma ZeroOffer(c: Config, s: State, m: Message)
    ensures var t := Offered(c, Locked(c, s, m, s.pool, 0), m, 0);
            OnlyZero(s, t, m.mac) && HoldsLease(t, m.mac, 0)
  {
  }

  /** After a conflict the loop goes round on index 0. */
  lemma {:induction false} ZeroTail(c: Config, s: State, m: Message, pick: nat, probes: seq<bool>)
    requires PoolReady(c, s) && ClientMac(m.mac) && m.mac !in s.leases
    ensures var t := Retry(c, s, m, Some(0), false, pick, probes).s;
            && OnlyZero(s, t, m.mac)
            && (s.pool.free == {} ==> t == s)
            && (s.pool.free != {} ==> TimerOn(t, 0) || HoldsLease(t, m.mac, 0))
    decreases |probes|
  {
    if s.pool.free != {} {
      assert Choose(c, s.pool, m, Some(0), false, pick) == Chosen(s.pool, 0);
      if probes != [] && probes[0] {
        var k := Conflict(Locked(c, s, m, s.pool, 0), m, 0);
        ZeroConflict(c, s, m);
        ZeroTail(c, k, m, pick, probes[1..]);
        RetryFrame(c, k, m, Some(0), false, pick, probes[1..]);
        TimerKept(k, Retry(c, k, m, Some(0), false, pick, probes[1..]).s, 0);
      } else {
        ZeroOffer(c, s, m);
      }
    }
  }

  /** What becomes of a stale index x after the pass that chose another address or x itself. */
  lemma StalePass(c: Config, s: State, m: Message, firstTry: bool, pick: nat, probes: seq<bool>, x: nat)
    requires GoodArguments(c, s, None, pick) && ClientMac(m.mac)
    requires HoldsLease(s, m.mac, x) && s.pool.Owner(x) == m.mac && !TimerOn(s, x)
    requires Choose(c, s.pool, m, None, firstTry, pick).Chosen?
    ensures var r := Choose(c, s.pool, m, None, firstTry, pick);
            Covered(Retry(c, s, m, None, firstTry, pick, probes).s, x) <==>
            (r.index == x || (x == 0 && probes != [] && probes[0] && r.pool.free != {}))
  {
    ChooseEffect(c, s, m, None, firstTry, pick);
    var r := Choose(c, s.pool, m, None, firstTry, pick);
    StaleLocked(c, s, m, r.pool, r.index, x);
    if probes != [] && probes[0] {
      StaleConflict(c, Locked(c, s, m, r.pool, r.index), m, r.index, pick, probes[1..], x);
    }
  }

  lemma StaleLocked(c: Config, s: State, m: Message, p: PoolState, i: nat, x: nat)
    requires s.pool.Valid() && OwnersKept(s.pool, p) && ClientMac(m.mac)
    requires HoldsLease(s, m.mac, x) && s.pool.Owner(x) == m.mac && !TimerOn(s, x)
    ensures var l := Locked(c, s, m, p, i);
            && x in l.pool.mac && l.pool.mac[x] == m.mac && !TimerOn(l, x) && HoldsLease(l, m.mac, i)
            && (Covered(Offered(c, l, m, i), x) <==> i == x)
  {
  }

  lemma StaleConflict(c: Config, l: State, m: Message, i: nat, pick: nat, probes: seq<bool>, x: nat)
    requires PoolReady(c, l) && ClientMac(m.mac) && HoldsLease(l, m.mac, i) && i in l.pool.mac
    requires x in l.pool.mac && l.pool.mac[x] == m.mac && !TimerOn(l, x)
    ensures Covered(Retry(c, Conflict(l, m, i), m, Some(0), false, pick, probes).s, x) <==>
            (i == x || (x == 0 && l.pool.free != {}))
  {
    var k := Conflict(l, m, i);
    ConflictTimers(l, m, i);
    ConflictFrame(l, m, i);
    assert k.pool == l.pool;
    ZeroTail(c, k, m, pick, probes);
    RetryFrame(c, k, m, Some(0), false, pick, probes);
    if i == x {
      TimerKept(k, Retry(c, k, m, Some(0), false, pick, probes).s, x);
    }
  }

  lemma StaleRetry(c: Config, s: State, m: Message, pick: nat, probes: seq<bool>, x: nat)
    requires GoodArguments(c, s, None, pick) && ClientMac(m.mac)
    requires HoldsLease(s, m.mac, x) && s.pool.Owner(x) == m.mac && !TimerOn(s, x)
    ensures Covered(Retry(c, s, m, None, true, pick, probes).s, x) <==> !Forgets(c, s.pool, m, x, pick, probes)
  {
    var r := Choose(c, s.pool, m, None, true, pick);
    match r
    case GiveUp =>
    case TryAgain => StalePass(c, s, m, false, pick, probes, x);
    case Chosen(_, _) => StalePass(c, s, m, true, pick, probes, x);
  }

  /** Serving this message loses the address of the client's stale entry. */
  ghost predicate Loses(c: Config, s: State, step: Step, base: set<nat>) {
    Overwrites(c, s, step, base) && Forgets(c, s.pool, step.m, s.leases[step.m.mac].value, step.pick, step.probes)
  }

  lemma CoveredEntered(c: Config, s: State, m: Message)
    ensures forall j: nat :: TimerOn(Entered(c, s, m), j) <==> TimerOn(s, j)
    ensures forall j: nat :: Covered(Entered(c, s, m), j) <==> Covered(s, j)
  {
  }

  /** Overwriting a stale entry endangers its index alone, and loses it exactly when `Loses` says so. */
  lemma StaleDiscover(c: Config, s: State, m: Message, pick: nat, probes: seq<bool>, base: set<nat>)
    requires PoolReady(c, s) && StaticLeases(c, s) && Enabled(s, Serve(m, pick, probes)) && NoneLost(s, base)
    requires Overwrites(c, s, Serve(m, pick, probes), base)
    ensures NoneLost(Respond(c, s, m, pick, probes).s, base) <==> !Loses(c, s, Serve(m, pick, probes), base)
  {
    var n, x := Entered(c, s, m), s.leases[m.mac].value;
    var t := Respond(c, s, m, pick, probes).s;
    CoveredEntered(c, s, m);
    StaleRetry(c, n, m, pick, probes, x);
    RetryFrame(c, n, m, None, true, pick, probes);
    RetrySafe(c, n, m, None, true, pick, probes, base + {x});
    assert NoneLost(n, base + {x});
    NoneLostKept(n, t, base + {x});
    assert x in t.pool.mac;
  }

  lemma LogSafe(s: State, e: Event, base: set<nat>)
    ensures NoneLost(s.Log(e), base) <==> NoneLost(s, base)
  {
  }

  lemma FireSafe(s: State, t: Timer, base: set<nat>)
    requires NoneLost(s, base) && s.pool.Valid() && t in s.timers
    ensures NoneLost(FireTimer(s, t), base)
  {
  }

  lemma TickSafe(s: State, d: nat, base: set<nat>)
    requires NoneLost(s, base)
    ensures NoneLost(s.(now := s.now + d), base)
  {
  }

  lemma ServeLosesIff(c: Config, s: State, m: Message, pick: nat, probes: seq<bool>, base: set<nat>)
    requires PoolReady(c, s) && StaticLeases(c, s) && Enabled(s, Serve(m, pick, probes)) && NoneLost(s, base)
    ensures NoneLost(Apply(c, s, Serve(m, pick, probes)), base) <==> !Loses(c, s, Serve(m, pick, probes), base)
  {
    var r := Respond(c, s, m, pick, probes);
    if Overwrites(c, s, Serve(m, pick, probes), base) {
      StaleDiscover(c, s, m, pick, probes, base);
    } else {
      RespondSafe(c, s, m, pick, probes, base);
      RespondFrame(c, s, m, pick, probes);
      NoneLostKept(s, r.s, base);
    }
    LogSafe(r.s, Answered(m.mac, r.answer), base);
  }

  /** A step loses an address if and only if it is a Discover that overwrites a stale entry with
      another address. */
  lemma StepLosesIff(c: Config, s: State, step: Step, base: set<nat>)
    requires PoolReady(c, s) && StaticLeases(c, s) && Enabled(s, step) && NoneLost(s, base)
    ensures NoneLost(Apply(c, s, step), base) <==> !Loses(c, s, step, base)
  {
    match step
    case Serve(m, pick, probes) => ServeLosesIff(c, s, m, pick, probes, base);
    case Evict(mac) =>
      DeleteSafe(s, mac, base);
      NoneLostKept(s, s.DeleteLease(mac), base);
    case Delete(mac) =>
      var d := s.(deletes := s.deletes - multiset{mac});
      assert forall j: nat :: TimerOn(d, j) <==> TimerOn(s, j);
      DeleteSafe(d, mac, base);
      NoneLostKept(d, d.DeleteLease(mac), base);
    case Fire(t) => FireSafe(s, t, base);
    case ApiRelease(mac) =>
      if s.LeaseOf(mac).Some? {
        RefreshSafe(s, mac, API_RELEASE_TTL, base);
        NoneLostKept(s, s.SetLease(mac, s.LeaseOf(mac).value, API_RELEASE_TTL), base);
      }
    case Tick(d) => TickSafe(s, d, base);
  }

  lemma StaticRequest(c: Config, s: State, m: Message)
    requires PoolReady(c, s) && StaticLeases(c, s) && c.Static(m.mac)
    ensures StaticLeases(c, Request(c, s, m).s)
  {
  }

  lemma StaticRespond(c: Config, s: State, m: Message, pick: nat, probes: seq<bool>)
    requires PoolReady(c, s) && StaticLeases(c, s) && Enabled(s, Serve(m, pick, probes))
    ensures StaticLeases(c, Respond(c, s, m, pick, probes).s)
  {
    if !c.Static(m.mac) {
      RespondFrame(c, s, m, pick, probes);
    } else if !Duplicate(c, s, m) {
      StaticHandle(c, Entered(c, s, m), m, pick, probes);
    }
  }

  lemma StaticHandle(c: Config, s: State, m: Message, pick: nat, probes: seq<bool>)
    requires PoolReady(c, s) && StaticLeases(c, s) && c.Static(m.mac) && ClientMac(m.mac)
    ensures StaticLeases(c, Handle(c, s, m, pick, probes).s)
  {
    match m.kind
    case DiscoverKind =>
    case RequestKind => StaticRequest(c, s, m);
    case InformKind => StaticRequest(c, s, m);
    case ReleaseKind => GiveBackKeeps(c, s, m, ByRelease);
    case DeclineKind => GiveBackKeeps(c, s, m, ByDecline);
    case OfferKind =>
    case AckKind =>
    case NakKind =>
  }

  lemma ApplyStaticLeases(c: Config, s: State, step: Step)
    requires PoolReady(c, s) && StaticLeases(c, s) && Enabled(s, step)
    ensures StaticLeases(c, Apply(c, s, step))
  {
    if step.Serve? {
      StaticRespond(c, s, step.m, step.pick, step.probes);
    }
  }

  /** In every run the entry of a client with a static assignment is its position. */
  lemma {:induction false} RunStaticLeases(c: Config, ss: seq<State>, steps: seq<Step>, n: nat)
    requires RunFromStart(c, ss, steps) && n <= |steps|
    ensures StaticLeases(c, ss[n])
  {
    if n > 0 {
      RunStaticLeases(c, ss, steps, n - 1);
      RunPoolReady(c, ss, steps, n - 1);
      ApplyStaticLeases(c, ss[n - 1], steps[n - 1]);
    }
  }

  /** No address is lost: in every run without such an overwriting Discover, each index taken after
      configuration has a pending timer or the lease entry of its owner. */
  lemma {:induction false} NoAddressLost(c: Config, ss: seq<State>, steps: seq<Step>, n: nat)
    requires RunFromStart(c, ss, steps) && n <= |steps|
    requires forall k {:trigger steps[k]} :: 0 <= k < n ==> !Loses(c, ss[k], steps[k], ss[0].pool.mac.Keys)
    ensures NoneLost(ss[n], ss[0].pool.mac.Keys) && StaticLeases(c, ss[n])
  {
    if n > 0 {
      NoAddressLost(c, ss, steps, n - 1);
      RunPoolReady(c, ss, steps, n - 1);
      StepLosesIff(c, ss[n - 1], steps[n - 1], ss[0].pool.mac.Keys);
      ApplyStaticLeases(c, ss[n - 1], steps[n - 1]);
    }
  }
}
