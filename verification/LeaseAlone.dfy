/** Which messages leave an index alone whose only trace outside the pool is, at most, the lease entry
    of its owner. */
module LeaseAlone {
  import opened Basics
  import opened Address
  import opened Pool
  import opened Lease
  import opened LeaseEffects
  import opened LeaseAcks
  import opened LeaseCoverage

  /** Owner o has index e, no timer is on it, and no other client's lease entry refers to it. */
  ghost predicate Alone(s: State, e: nat, o: Mac) {
    && e in s.pool.mac && s.pool.mac[e] == o
    && (forall k :: k in s.leases && k != o ==> s.leases[k].value != e)
    && (forall t :: t in s.timers ==> t.index != e)
  }

  /** Moreover the owner has no lease entry for it. */
  ghost predicate Untouched(s: State, e: nat, o: Mac) {
    Alone(s, e, o) && !HoldsLease(s, o, e)
  }

  predicate StaticAt(c: Config, mac: Mac, e: nat) {
    c.Static(mac) && c.positions[mac] == e
  }

  /** Some client has e as its static position. */
  ghost predicate StaticClientAt(c: Config, e: nat) {
    exists mac :: ClientMac(mac) && StaticAt(c, mac, e)
  }

  /** The event tells a client that index e is its address. */
  predicate Mentions(c: Config, ev: Event, e: nat) {
    ev.Answered? && (ev.answer == Offer(c.AddressOf(e)) || ev.answer == Ack(c.AddressOf(e)))
  }

  /** Index e is alone and the sender `mac` of a message, the owner or not, has no entry for it. */
  ghost predicate Aside(s: State, mac: Mac, e: nat, o: Mac) {
    Alone(s, e, o) && !HoldsLease(s, mac, e)
  }

  lemma DeleteAside(s: State, mac: Mac, e: nat, o: Mac)
    requires Aside(s, mac, e, o)
    ensures Aside(s.DeleteLease(mac), mac, e, o)
  {
  }

  // ---------- Discover ----------

  lemma LockedAside(c: Config, s: State, m: Message, p: PoolState, j: nat, e: nat, o: Mac)
    requires PoolReady(c, s) && OwnersKept(s.pool, p) && Aside(s, m.mac, e, o) && j != e
    ensures Aside(Locked(c, s, m, p, j), m.mac, e, o) && PoolReady(c, Locked(c, s, m, p, j))
  {
  }

  lemma OfferedAside(c: Config, s: State, m: Message, j: nat, e: nat, o: Mac)
    requires PoolReady(c, s) && Aside(s, m.mac, e, o) && j != e && j < c.range
    ensures Aside(Offered(c, s, m, j), m.mac, e, o) && c.AddressOf(j) != c.AddressOf(e)
  {
  }

  lemma ConflictAside(s: State, m: Message, j: nat, e: nat, o: Mac)
    requires s.pool.Valid() && Aside(s, m.mac, e, o) && j != e
    ensures Aside(Conflict(s, m, j), m.mac, e, o)
  {
    DeleteAside(s, m.mac, e, o);
  }

  /** A pass on another index: whether or not the probe is answered, e stays as it is. */
  lemma PassAside(c: Config, s: State, m: Message, p: PoolState, j: nat, e: nat, o: Mac)
    requires PoolReady(c, s) && OwnersKept(s.pool, p) && Aside(s, m.mac, e, o) && j != e && j < c.range
    ensures var l := Locked(c, s, m, p, j);
            && Aside(Offered(c, l, m, j), m.mac, e, o) && c.AddressOf(j) != c.AddressOf(e)
            && Aside(Conflict(l, m, j), m.mac, e, o) && PoolReady(c, Conflict(l, m, j))
  {
    var l := Locked(c, s, m, p, j);
    LockedAside(c, s, m, p, j, e, o);
    OfferedAside(c, l, m, j, e, o);
    ConflictAside(l, m, j, e, o);
    ConflictFrame(l, m, j);
  }

  lemma {:induction false} TailAside(c: Config, s: State, m: Message, probes: seq<bool>, e: nat, o: Mac)
    requires PoolReady(c, s) && Aside(s, m.mac, e, o) && (e != 0 || s.pool.free == {})
    ensures Aside(Tail(c, s, m, probes).s, m.mac, e, o)
    ensures Tail(c, s, m, probes).answer != Offer(c.AddressOf(e))
    decreases |probes|
  {
    if s.pool.free != {} {
      PassAside(c, s, m, s.pool, 0, e, o);
      if probes != [] && probes[0] {
        TailAside(c, Conflict(Locked(c, s, m, s.pool, 0), m, 0), m, probes[1..], e, o);
      }
    }
  }

  /** A search whose first choice is not e leaves e aside; index 0 also needs that the choice meets no
      conflict or leaves nothing free. */
  lemma SearchAside(c: Config, s: State, m: Message, r: Choice, probes: seq<bool>, e: nat, o: Mac)
    requires PoolReady(c, s) && Aside(s, m.mac, e, o)
    requires r.Chosen? ==> OwnersKept(s.pool, r.pool) && r.index != e && r.index < c.range
    requires r.Chosen? ==> e != 0 || r.pool.free == {} || ConflictFree(probes)
    ensures Aside(Search(c, s, m, r, probes).s, m.mac, e, o)
    ensures Search(c, s, m, r, probes).answer != Offer(c.AddressOf(e))
  {
    if r.Chosen? {
      PassAside(c, s, m, r.pool, r.index, e, o);
      if probes != [] && probes[0] {
        var k := Conflict(Locked(c, s, m, r.pool, r.index), m, r.index);
        assert r.pool.free == {} ==> k.pool.free == {};
        TailAside(c, k, m, probes[1..], e, o);
      }
    }
  }

  /** The first choice is not e, and leaves the loop no way to index 0 if that is e. */
  predicate Misses(c: Config, s: State, m: Message, pick: nat, probes: seq<bool>, e: nat) {
    var r := FirstChoice(c, s.pool, m, pick);
    r.Chosen? ==> r.index != e && (e != 0 || r.pool.free == {} || ConflictFree(probes))
  }

  lemma SearchingAside(c: Config, s: State, m: Message, pick: nat, probes: seq<bool>, e: nat, o: Mac)
    requires GoodArguments(c, s, None, pick) && ClientMac(m.mac) && Aside(s, m.mac, e, o)
    requires Searches(c, s, m) && Misses(c, s, m, pick, probes, e)
    ensures Aside(Discover(c, s, m, pick, probes).s, m.mac, e, o)
    ensures Discover(c, s, m, pick, probes).answer != Offer(c.AddressOf(e))
  {
    DeleteAside(s, m.mac, e, o);
    DiscoverIsRetry(c, s, m, pick, probes);
    RetryIsSearch(c, SearchFrom(s, m), m, pick, probes);
    FirstChoiceEffect(c, s, m, pick);
    SearchAside(c, SearchFrom(s, m), m, FirstChoice(c, s.pool, m, pick), probes, e, o);
  }

  lemma RefreshAside(c: Config, s: State, mac: Mac, ttl: int, e: nat, o: Mac)
    requires PoolReady(c, s) && Aside(s, mac, e, o) && s.LeaseOf(mac).Some? && s.LeaseOf(mac).value < c.range
    ensures Aside(s.SetLease(mac, s.LeaseOf(mac).value, ttl), mac, e, o)
    ensures c.AddressOf(s.LeaseOf(mac).value) != c.AddressOf(e)
  {
    IndexRoundTrip(c.start, c.range, s.LeaseOf(mac).value);
    IndexRoundTrip(c.start, c.range, e);
  }

  lemma LiveEntryAside(c: Config, s: State, m: Message, pick: nat, probes: seq<bool>, e: nat, o: Mac)
    requires PoolReady(c, s) && ClientMac(m.mac) && Aside(s, m.mac, e, o) && !c.Static(m.mac) && !Searches(c, s, m)
    ensures Aside(Discover(c, s, m, pick, probes).s, m.mac, e, o)
    ensures Discover(c, s, m, pick, probes).answer != Offer(c.AddressOf(e))
  {
    DiscoverLive(c, s, m, pick, probes);
    if s.pool.Owner(s.LeaseOf(m.mac).value) == m.mac {
      RefreshAside(c, s, m.mac, OFFER_TTL, e, o);
    } else {
      DeleteAside(s, m.mac, e, o);
    }
  }

  lemma DiscoverAside(c: Config, s: State, m: Message, pick: nat, probes: seq<bool>, e: nat, o: Mac)
    requires GoodArguments(c, s, None, pick) && ClientMac(m.mac) && Aside(s, m.mac, e, o) && !StaticAt(c, m.mac, e)
    requires Searches(c, s, m) ==> Misses(c, s, m, pick, probes, e)
    ensures Aside(Discover(c, s, m, pick, probes).s, m.mac, e, o)
    ensures Discover(c, s, m, pick, probes).answer != Offer(c.AddressOf(e))
  {
    if c.Static(m.mac) {
      StaticOffer(c, m.mac, e);
    } else if Searches(c, s, m) {
      SearchingAside(c, s, m, pick, probes, e, o);
    } else {
      LiveEntryAside(c, s, m, pick, probes, e, o);
    }
  }

  lemma StaticOffer(c: Config, mac: Mac, e: nat)
    requires c.Static(mac) && c.positions[mac] != e && e < c.range && c.Valid()
    ensures c.AddressOf(c.positions[mac]) != c.AddressOf(e)
  {
    if c.AddressOf(c.positions[mac]) == c.AddressOf(e) {
      AddressInjective(c.start, c.positions[mac], e);
    }
  }

  // ---------- The other messages ----------

  lemma RequestAside(c: Config, s: State, m: Message, e: nat, o: Mac)
    requires PoolReady(c, s) && Aside(s, m.mac, e, o) && !StaticAt(c, m.mac, e) && ClientMac(m.mac)
    ensures Aside(Request(c, s, m).s, m.mac, e, o)
    ensures !Request(c, s, m).answer.Offer? && Request(c, s, m).answer != Ack(c.AddressOf(e))
  {
    var ip, i := RequestShape(c, s, m);
    DeleteAside(s, m.mac, e, o);
    if Granted(c, s, m, Request(c, s, m), ip, i) {
      assert i != e;
      IndexRoundTrip(c.start, c.range, i);
      IndexRoundTrip(c.start, c.range, e);
    }
  }

  lemma GiveBackAside(c: Config, s: State, m: Message, cause: Cause, e: nat, o: Mac)
    requires PoolReady(c, s) && Aside(s, m.mac, e, o) && ClientMac(m.mac)
    ensures Aside(GiveBack(c, s, m, cause), m.mac, e, o)
  {
    var t := GiveBack(c, s, m, cause);
    GiveBackKeeps(c, s, m, cause);
    if t.timers != s.timers {
      var i := s.leases[m.mac].value;
      assert t.timers == s.timers + multiset{Timer(i, s.now + UNUSABLE_DELAY, cause)};
    }
  }

  lemma HandleAside(c: Config, s: State, m: Message, pick: nat, probes: seq<bool>, e: nat, o: Mac)
    requires GoodArguments(c, s, None, pick) && ClientMac(m.mac) && Aside(s, m.mac, e, o) && !StaticAt(c, m.mac, e)
    requires m.kind == DiscoverKind && Searches(c, s, m) ==> Misses(c, s, m, pick, probes, e)
    ensures Aside(Handle(c, s, m, pick, probes).s, m.mac, e, o)
    ensures !Mentions(c, Answered(m.mac, Handle(c, s, m, pick, probes).answer), e)
  {
    match m.kind
    case DiscoverKind =>
      DiscoverEnds(c, s, m, pick, probes);
      DiscoverAside(c, s, m, pick, probes, e, o);
    case RequestKind => RequestAside(c, s, m, e, o);
    case InformKind => RequestAside(c, s, m, e, o);
    case ReleaseKind => GiveBackAside(c, s, m, ByRelease, e, o);
    case DeclineKind => GiveBackAside(c, s, m, ByDecline, e, o);
    case OfferKind =>
    case AckKind =>
    case NakKind =>
  }

  /** The message is a Discover that gets to the retry loop. */
  predicate Seeks(c: Config, s: State, m: Message) {
    m.kind == DiscoverKind && !Duplicate(c, s, m) && Searches(c, s, m)
  }

  /** Every message leaves e aside and is not answered with e, unless it is a search whose first choice
      leads to e or comes from a client statically at e. */
  lemma RespondAside(c: Config, s: State, m: Message, pick: nat, probes: seq<bool>, e: nat, o: Mac)
    requires GoodArguments(c, s, None, pick) && ClientMac(m.mac) && Aside(s, m.mac, e, o) && !StaticAt(c, m.mac, e)
    requires Seeks(c, s, m) ==> Misses(c, s, m, pick, probes, e)
    ensures Aside(Respond(c, s, m, pick, probes).s, m.mac, e, o)
    ensures !Mentions(c, Answered(m.mac, Respond(c, s, m, pick, probes).answer), e)
  {
    if !Duplicate(c, s, m) {
      HandleAside(c, Entered(c, s, m), m, pick, probes, e, o);
    }
  }

  /** A first choice is e only if the owner of e asks for it. */
  lemma MissesOthers(c: Config, s: State, m: Message, pick: nat, probes: seq<bool>, e: nat)
    requires GoodArguments(c, s, None, pick) && ClientMac(m.mac) && e in s.pool.mac && e != 0
    requires s.pool.mac[e] != m.mac || !AsksFor(c, m, e) || s.pool.free == {}
    ensures Misses(c, s, m, pick, probes, e)
  {
    FirstChoiceEffect(c, s, m, pick);
  }

  /** A message of another client not statically at e leaves e alone and is not answered with e. */
  lemma RespondAlone(c: Config, s: State, m: Message, pick: nat, probes: seq<bool>, e: nat, o: Mac)
    requires GoodArguments(c, s, None, pick) && ClientMac(m.mac) && Alone(s, e, o) && m.mac != o
    requires e != 0 && !StaticAt(c, m.mac, e)
    ensures Alone(Respond(c, s, m, pick, probes).s, e, o)
    ensures !Mentions(c, Answered(m.mac, Respond(c, s, m, pick, probes).answer), e)
  {
    MissesOthers(c, s, m, pick, probes, e);
    RespondAside(c, s, m, pick, probes, e, o);
  }

  /** Likewise e stays untouched, also by its owner's messages if that client has a static assignment
      elsewhere. */
  lemma RespondUntouched(c: Config, s: State, m: Message, pick: nat, probes: seq<bool>, e: nat, o: Mac)
    requires GoodArguments(c, s, None, pick) && ClientMac(m.mac) && Untouched(s, e, o)
    requires !StaticAt(c, m.mac, e) && (m.mac != o || c.Static(o))
    requires Seeks(c, s, m) ==> Misses(c, s, m, pick, probes, e)
    ensures Untouched(Respond(c, s, m, pick, probes).s, e, o)
    ensures !Mentions(c, Answered(m.mac, Respond(c, s, m, pick, probes).answer), e)
  {
    RespondAside(c, s, m, pick, probes, e, o);
    RespondFrame(c, s, m, pick, probes);
  }

  // ---------- The client statically at the index ----------

  lemma DeleteUntouched(s: State, mac: Mac, e: nat, o: Mac)
    requires Untouched(s, e, o)
    ensures Untouched(s.DeleteLease(mac), e, o)
  {
  }

  lemma OwnStaticRequest(c: Config, s: State, m: Message, e: nat, o: Mac)
    requires PoolReady(c, s) && Aside(s, m.mac, e, o) && StaticAt(c, m.mac, e)
    requires Request(c, s, m).answer != Ack(c.AddressOf(e))
    ensures Aside(Request(c, s, m).s, m.mac, e, o)
  {
    var ip, i := RequestShape(c, s, m);
    DeleteAside(s, m.mac, e, o);
  }

  /** A client statically at e touches e only with an ACK of e. */
  lemma StaticRespondAside(c: Config, s: State, m: Message, pick: nat, probes: seq<bool>, e: nat, o: Mac)
    requires PoolReady(c, s) && Aside(s, m.mac, e, o) && StaticAt(c, m.mac, e) && ClientMac(m.mac)
    requires Respond(c, s, m, pick, probes).answer != Ack(c.AddressOf(e))
    ensures Aside(Respond(c, s, m, pick, probes).s, m.mac, e, o)
  {
    if !Duplicate(c, s, m) {
      var n := Entered(c, s, m);
      match m.kind
      case DiscoverKind =>
      case RequestKind => OwnStaticRequest(c, n, m, e, o);
      case InformKind => OwnStaticRequest(c, n, m, e, o);
      case ReleaseKind => GiveBackAside(c, n, m, ByRelease, e, o);
      case DeclineKind => GiveBackAside(c, n, m, ByDecline, e, o);
      case OfferKind =>
      case AckKind =>
      case NakKind =>
    }
  }

  lemma StaticRespondUntouched(c: Config, s: State, m: Message, pick: nat, probes: seq<bool>, e: nat, o: Mac)
    requires PoolReady(c, s) && Enabled(s, Serve(m, pick, probes)) && Untouched(s, e, o) && StaticAt(c, m.mac, e)
    requires Respond(c, s, m, pick, probes).answer != Ack(c.AddressOf(e))
    ensures Untouched(Respond(c, s, m, pick, probes).s, e, o)
  {
    StaticRespondAside(c, s, m, pick, probes, e, o);
    RespondFrame(c, s, m, pick, probes);
  }
}
