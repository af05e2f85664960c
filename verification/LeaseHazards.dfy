/** Witness runs for properties one might expect of the scope but which it does not have. */
module LeaseHazards {
  import opened Basics
  import opened Address
  import opened Pool
  import opened Lease
  import opened LeaseEffects
  import opened LeaseAnswers
  import opened LeaseCoverage
  import opened LeaseAlone
  import opened LeaseReserved
  import opened LeaseStability
  import opened LeaseLost
  import opened LeaseWitness

  // ---------- A lost address ----------

  /** A Discover of a client without entry that names no address is offered the pick. */
  lemma PlainDiscover(c: Config, s: State, m: Message, pick: nat)
    requires PoolReady(c, s) && Enabled(s, Serve(m, pick, [])) && s.pool.free != {}
    requires m.kind == DiscoverKind && m.requested == None && !c.Static(m.mac)
    requires s.LeaseOf(m.mac).None? && !Duplicate(c, s, m)
    ensures var t := Apply(c, s, Serve(m, pick, []));
            && t.pool == s.pool.Taken(pick, m.mac) && t.timers == s.timers && t.now == s.now
            && t.leases == s.leases[m.mac := Cached(pick, s.now + OFFER_TTL)]
            && t.transactions == Entered(c, s, m).transactions && t.requests == s.requests && t.deletes == s.deletes
  {
  }

  lemma ReachPlain(c: Config, s0: State, s: State, m: Message, pick: nat) returns (t: State)
    requires Leads(c, {}, s0, s) && PoolReady(c, s) && Enabled(s, Serve(m, pick, [])) && s.pool.free != {}
    requires m.kind == DiscoverKind && m.requested == None && !c.Static(m.mac)
    requires s.LeaseOf(m.mac).None? && !Duplicate(c, s, m)
    ensures Leads(c, {}, s0, t)
    ensures t.pool == s.pool.Taken(pick, m.mac) && t.timers == s.timers && t.now == s.now
    ensures t.leases == s.leases[m.mac := Cached(pick, s.now + OFFER_TTL)]
    ensures t.transactions == Entered(c, s, m).transactions && t.requests == s.requests && t.deletes == s.deletes
  {
    PlainDiscover(c, s, m, pick);
    ReachStep(c, {}, s0, s, Serve(m, pick, []));
    t := Apply(c, s, Serve(m, pick, []));
  }

  /** An address can be lost: a client that asks again after its offer expired, but before the entry was
      evicted, leaves the first address owned without entry or timer. */
  lemma AddressCanBeLost(c: Config, s0: State, mac: Mac, p: nat, q: nat) returns (t: State)
    requires FreshScope(c, s0) && ClientMac(mac) && !c.Static(mac)
    requires s0.pool.MayPick(p) && s0.pool.Taken(p, mac).MayPick(q)
    ensures Leads(c, {}, s0, t) && Lost(c, t, mac, p) && !NoneLost(t, s0.pool.mac.Keys)
  {
    var m := Message(DiscoverKind, mac, 0, None, 0, None);
    ReachStart(c, {}, s0);
    var a := ReachPlain(c, s0, s0, m, p);
    var b := ReachTick(c, {}, s0, a, OFFER_TTL + 1);
    ReachReady(c, {}, s0, b);
    t := ReachPlain(c, s0, b, m, q);
    LostIsUncovered(t, mac, p);
  }

  // ---------- A static address freed ----------

  /** A static address does not stay reserved: its own client's ACK leads, through the eviction of
      the lease entry, to a free that makes it available to anybody. */
  lemma StaticCanBeFreed(c: Config, s0: State, mac: Mac, e: nat) returns (t: State)
    requires FreshScope(c, s0) && ClientMac(mac) && StaticAt(c, mac, e) && e in s0.pool.mac && c.AddressOf(e) != 0
    ensures Leads(c, {}, s0, t) && e in t.pool.free
  {
    ReachStart(c, {}, s0);
    t := FreeStatic(c, {}, s0, s0, mac, e);
  }

  // ---------- An offer refused ----------

  /** An offer can be refused: when the first probe is answered and index 0 is taken, the client is offered
      the address of index 0, and its request for it gets a NAK. */
  lemma OfferCanBeRefused(c: Config, s0: State) returns (m: Message, q: Message, pick: nat, t: State)
    requires FreshScope(c, s0) && StandingOwners(c, s0.pool) && 0 in s0.pool.mac && |s0.pool.free| >= 2
    requires c.AddressOf(0) != 0
    ensures Enabled(s0, Serve(m, pick, [true])) && t == Apply(c, s0, Serve(m, pick, [true])) && Leads(c, {}, s0, t)
    ensures Respond(c, s0, m, pick, [true]).answer == Offer(c.AddressOf(0))
    ensures q.mac == m.mac && Asks(c, t, q, 0) && Respond(c, t, q, pick, []).answer == Nak
  {
    ReachStart(c, {}, s0);
    m, pick, t := ZeroOffered(c, {}, s0, s0);
    ReachReady(c, {}, s0, t);
    q := NewRequest(c, t, m.mac, 0);
    AckedIffOwner(c, t, q, pick, [], 0);
  }

  // ---------- A live lease freed ----------

  /** A Discover of a client without entry that names a free address is offered it. */
  lemma ReachNaming(c: Config, s0: State, s: State, m: Message, i: nat) returns (t: State)
    requires Leads(c, {}, s0, s) && i in s.pool.free && AsksFor(c, m, i)
    requires m.kind == DiscoverKind && !c.Static(m.mac) && ClientMac(m.mac)
    requires s.LeaseOf(m.mac).None? && !Duplicate(c, s, m)
    ensures Leads(c, {}, s0, t)
    ensures t.pool == s.pool.Taken(i, m.mac) && t.timers == s.timers && t.now == s.now
    ensures t.leases == s.leases[m.mac := Cached(i, s.now + OFFER_TTL)]
    ensures t.transactions == Entered(c, s, m).transactions && t.requests == s.requests
  {
    ReachReady(c, {}, s0, s);
    var pick := SomePick(s.pool);
    ReachStep(c, {}, s0, s, Serve(m, pick, []));
    NamingDiscover(c, s, m, pick, i);
    t := Apply(c, s, Serve(m, pick, []));
  }

  lemma FreeNamed(c: Config, s: State, m: Message, pick: nat, i: nat)
    requires PoolReady(c, s) && i in s.pool.free && AsksFor(c, m, i) && ClientMac(m.mac)
    ensures Retry(c, s, m, None, true, pick, []).s == Offered(c, Locked(c, s, m, s.pool.Taken(i, m.mac), i), m, i)
  {
    RetryIsSearch(c, s, m, pick, []);
    assert FirstChoice(c, s.pool, m, pick) == Chosen(s.pool.Taken(i, m.mac), i);
  }

  lemma PassResult(c: Config, s: State, m: Message, p: PoolState, i: nat)
    ensures var t := Offered(c, Locked(c, s, m, p, i), m, i);
            && Continues(s, t, p) && t.timers == s.timers && t.deletes == s.deletes
            && t.leases == s.leases[m.mac := Cached(i, s.now + OFFER_TTL)]
  {
  }

  lemma NamingDiscover(c: Config, s: State, m: Message, pick: nat, i: nat)
    requires PoolReady(c, s) && i in s.pool.free && AsksFor(c, m, i)
    requires m.kind == DiscoverKind && !c.Static(m.mac) && ClientMac(m.mac)
    requires s.LeaseOf(m.mac).None? && !Duplicate(c, s, m)
    ensures var t := Apply(c, s, Serve(m, pick, []));
            && t.pool == s.pool.Taken(i, m.mac) && t.timers == s.timers && t.now == s.now
            && t.leases == s.leases[m.mac := Cached(i, s.now + OFFER_TTL)]
            && t.transactions == Entered(c, s, m).transactions && t.requests == s.requests
  {
    var n := Entered(c, s, m);
    FreeNamed(c, n, m, pick, i);
    PassResult(c, n, m, n.pool.Taken(i, m.mac), i);
  }

  /** A fresh request for the address of a live entry whose index the client owns. */
  lemma ReachAck(c: Config, s0: State, s: State, q: Message, i: nat) returns (t: State)
    requires Leads(c, {}, s0, s) && !c.Static(q.mac) && ClientMac(q.mac) && i < c.range
    requires s.LeaseOf(q.mac) == Some(i) && s.pool.Owner(i) == q.mac && Asks(c, s, q, i)
    ensures Leads(c, {}, s0, t) && t.pool == s.pool && t.timers == s.timers && t.now == s.now
    ensures t.leases == s.leases[q.mac := Cached(i, s.now + c.leaseDuration + LEASE_GRACE)]
    ensures t.log == s.log + [Answered(q.mac, Ack(c.AddressOf(i)))]
  {
    ReachReady(c, {}, s0, s);
    var pick := SomePick(s.pool);
    ReachStep(c, {}, s0, s, Serve(q, pick, []));
    AckStep(c, s, q, pick, i);
    t := Apply(c, s, Serve(q, pick, []));
  }

  lemma AckStep(c: Config, s: State, q: Message, pick: nat, i: nat)
    requires PoolReady(c, s) && !c.Static(q.mac) && ClientMac(q.mac) && i < c.range
    requires s.LeaseOf(q.mac) == Some(i) && s.pool.Owner(i) == q.mac && Asks(c, s, q, i)
    ensures var t := Apply(c, s, Serve(q, pick, []));
            && t.pool == s.pool && t.timers == s.timers && t.now == s.now
            && t.leases == s.leases[q.mac := Cached(i, s.now + c.leaseDuration + LEASE_GRACE)]
            && t.log == s.log + [Answered(q.mac, Ack(c.AddressOf(i)))]
  {
    IndexRoundTrip(c.start, c.range, i);
    MatchingDecided(c, s, q, pick, [], i);
  }

  /** Offered and given back at once, the index is freed after thirty seconds, while the timer of the Release
      goes on sleeping. */
  lemma ReleasedEarly(c: Config, s0: State, mac: Mac, i: nat) returns (t: State, timer: Timer)
    requires FreshScope(c, s0) && ClientMac(mac) && !c.Static(mac) && s0.pool.MayPick(i)
    ensures Leads(c, {}, s0, t) && i in t.pool.free && t.timers == multiset{timer} && t.requests == map[]
    ensures timer.index == i && timer.due == s0.now + UNUSABLE_DELAY && t.now == s0.now + EVICTION_DELAY
    ensures forall k :: k in t.transactions ==> k.mac == mac
    ensures forall k :: k in t.leases ==> k == mac
  {
    var m := Message(DiscoverKind, mac, 0, None, 0, None);
    ReachStart(c, {}, s0);
    var a := ReachPlain(c, s0, s0, m, i);
    timer := Timer(i, s0.now + UNUSABLE_DELAY, ByRelease);
    var b := ReleaseAndDelete(c, s0, a, mac, i);
    t := ReachDue(c, {}, s0, b, Timer(i, a.now + EVICTION_DELAY, Evicted), multiset{timer});
  }

  lemma ReleaseStep(c: Config, s: State, m: Message, pick: nat, i: nat)
    requires PoolReady(c, s) && ClientMac(m.mac) && m.kind == ReleaseKind && m.requested == None && m.ciaddr == c.AddressOf(i)
    requires i < c.range && s.LeaseOf(m.mac) == Some(i) && s.pool.Owner(i) == m.mac && !Duplicate(c, s, m)
    ensures var t := Apply(c, s, Serve(m, pick, []));
            && t.pool == s.pool && t.leases == s.leases && t.now == s.now && t.requests == s.requests
            && t.timers == s.timers + multiset{Timer(i, s.now + UNUSABLE_DELAY, ByRelease)}
            && t.deletes == s.deletes + multiset{m.mac} && t.transactions == Entered(c, s, m).transactions
  {
    IndexRoundTrip(c.start, c.range, i);
  }

  lemma ReachRelease(c: Config, s0: State, s: State, m: Message, i: nat) returns (t: State)
    requires Leads(c, {}, s0, s) && ClientMac(m.mac) && m.kind == ReleaseKind && m.requested == None && m.ciaddr == c.AddressOf(i)
    requires i < c.range && s.LeaseOf(m.mac) == Some(i) && s.pool.Owner(i) == m.mac && !Duplicate(c, s, m)
    ensures Leads(c, {}, s0, t) && t.pool == s.pool && t.leases == s.leases && t.now == s.now && t.requests == s.requests
    ensures t.timers == s.timers + multiset{Timer(i, s.now + UNUSABLE_DELAY, ByRelease)}
    ensures t.deletes == s.deletes + multiset{m.mac} && t.transactions == Entered(c, s, m).transactions
  {
    ReachReady(c, {}, s0, s);
    var pick := SomePick(s.pool);
    ReachStep(c, {}, s0, s, Serve(m, pick, []));
    ReleaseStep(c, s, m, pick, i);
    t := Apply(c, s, Serve(m, pick, []));
  }

  lemma DeleteStep(c: Config, s: State, mac: Mac)
    requires mac in s.leases
    ensures var t := Apply(c, s, Delete(mac));
            && t.pool == s.pool && t.leases == s.leases - {mac} && t.now == s.now && t.requests == s.requests
            && t.timers == s.timers + multiset{Timer(s.leases[mac].value, s.now + EVICTION_DELAY, Evicted)}
            && t.transactions == s.transactions
  {
  }

  lemma ReachDelete(c: Config, s0: State, s: State, mac: Mac) returns (t: State)
    requires Leads(c, {}, s0, s) && mac in s.leases && mac in s.deletes
    ensures Leads(c, {}, s0, t) && t.pool == s.pool && t.leases == s.leases - {mac} && t.now == s.now && t.requests == s.requests
    ensures t.timers == s.timers + multiset{Timer(s.leases[mac].value, s.now + EVICTION_DELAY, Evicted)}
    ensures t.transactions == s.transactions
  {
    ReachStep(c, {}, s0, s, Delete(mac));
    DeleteStep(c, s, mac);
    t := Apply(c, s, Delete(mac));
  }

  lemma ReleaseAndDelete(c: Config, s0: State, a: State, mac: Mac, i: nat) returns (t: State)
    requires Leads(c, {}, s0, a) && ClientMac(mac) && mac in a.leases && a.leases[mac] == Cached(i, a.now + OFFER_TTL)
    requires a.pool.Owner(i) == mac && i < c.range && a.timers == multiset{} && a.requests == map[]
    requires forall k :: k in a.transactions ==> k.mac == mac && k.kind == DiscoverKind
    ensures Leads(c, {}, s0, t) && t.pool == a.pool && t.leases == a.leases - {mac} && t.now == a.now && t.requests == map[]
    ensures t.timers == multiset{Timer(i, a.now + UNUSABLE_DELAY, ByRelease)} + multiset{Timer(i, a.now + EVICTION_DELAY, Evicted)}
    ensures forall k :: k in t.transactions ==> k.mac == mac
  {
    var m := Message(ReleaseKind, mac, 0, None, c.AddressOf(i), None);
    var b := ReachRelease(c, s0, a, m, i);
    t := ReachDelete(c, s0, b, mac);
  }

  lemma NewRequest(c: Config, s: State, mac: Mac, i: nat) returns (q: Message)
    requires c.Valid() && i < c.range && c.AddressOf(i) != 0 && s.requests == map[]
    requires forall k :: k in s.transactions ==> k.mac != mac || k.kind == DiscoverKind
    ensures q.mac == mac && Asks(c, s, q, i)
  {
    IndexRoundTrip(c.start, c.range, i);
    q := Message(RequestKind, mac, 0, None, c.AddressOf(i), None);
  }

  /** A client that names the free index gets it acknowledged, whatever timer is sleeping. */
  lemma NextLease(c: Config, s0: State, a: State, mac: Mac, i: nat) returns (t: State)
    requires Leads(c, {}, s0, a) && ClientMac(mac) && !c.Static(mac) && i in a.pool.free && c.AddressOf(i) != 0
    requires mac !in a.leases && NoTrace(a, mac) && a.requests == map[]
    ensures Leads(c, {}, s0, t) && t.now == a.now && t.timers == a.timers && t.pool == a.pool.Taken(i, mac)
    ensures mac in t.leases && t.leases[mac] == Cached(i, a.now + c.leaseDuration + LEASE_GRACE)
    ensures t.log != [] && t.log[|t.log| - 1] == Answered(mac, Ack(c.AddressOf(i)))
  {
    ReachReady(c, {}, s0, a);
    var m := Naming(c, mac, i);
    var b := ReachNaming(c, s0, a, m, i);
    var q := NewRequest(c, b, mac, i);
    t := ReachAck(c, s0, b, q, i);
  }

  /** A live lease can be freed: the ten minute timer of an earlier Release frees the address under the
      next client's acknowledged lease, after which anybody can be given it. */
  lemma LiveLeaseCanBeFreed(c: Config, s0: State, first: Mac, next: Mac, i: nat) returns (a: State, t: State)
    requires FreshScope(c, s0) && s0.pool.MayPick(i) && c.AddressOf(i) != 0 && first != next
    requires ClientMac(first) && !c.Static(first) && ClientMac(next) && !c.Static(next)
    ensures Leads(c, {}, s0, a) && a.log != [] && a.log[|a.log| - 1] == Answered(next, Ack(c.AddressOf(i)))
    ensures Leads(c, {}, s0, t) && t.LeaseOf(next) == Some(i) && i in t.pool.free
  {
    var r, timer := ReleasedEarly(c, s0, first, i);
    var w := ReachTick(c, {}, s0, r, UNUSABLE_DELAY - EVICTION_DELAY - SECOND);
    a := NextLease(c, s0, w, next, i);
    var d := ReachTick(c, {}, s0, a, SECOND);
    ReachReady(c, {}, s0, d);
    t := ReachFire(c, {}, s0, d, timer);
  }
}
