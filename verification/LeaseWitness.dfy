/** Building runs step by step, to show that a state can be reached. */
module LeaseWitness {
  import opened Basics
  import opened Address
  import opened Pool
  import opened Lease
  import opened LeaseEffects
  import opened LeaseAlone
  import opened LeaseReserved

  /** The step is no message of a spared client and no release of it through the API. */
  predicate Spares(step: Step, spared: set<Mac>) {
    && (step.Serve? ==> step.m.mac !in spared)
    && (step.ApiRelease? ==> step.mac !in spared)
  }

  /** A run from s0 to s whose steps spare the given clients. */
  ghost predicate SparingRun(c: Config, spared: set<Mac>, s0: State, s: State, ss: seq<State>, steps: seq<Step>) {
    && Run(c, ss, steps) && ss[0] == s0 && ss[|steps|] == s
    && forall k {:trigger steps[k]} :: 0 <= k < |steps| ==> Spares(steps[k], spared)
  }

  /** Some such run exists. */
  ghost predicate Leads(c: Config, spared: set<Mac>, s0: State, s: State) {
    PoolReady(c, s0) && exists ss: seq<State>, steps: seq<Step> :: SparingRun(c, spared, s0, s, ss, steps)
  }

  lemma ReachStart(c: Config, spared: set<Mac>, s0: State)
    requires PoolReady(c, s0)
    ensures Leads(c, spared, s0, s0)
  {
    assert SparingRun(c, spared, s0, s0, [s0], []);
  }

  /** From a configured scope such a run is a run of the scope. */
  lemma ReachedRun(c: Config, spared: set<Mac>, s0: State, s: State) returns (ss: seq<State>, steps: seq<Step>)
    requires FreshScope(c, s0) && Leads(c, spared, s0, s)
    ensures RunFromStart(c, ss, steps) && ss[0] == s0 && ss[|steps|] == s
  {
    ss, steps :| SparingRun(c, spared, s0, s, ss, steps);
  }

  lemma ExtendRun(c: Config, ss: seq<State>, steps: seq<Step>, step: Step)
    requires Run(c, ss, steps) && Enabled(ss[|steps|], step)
    ensures Run(c, ss + [Apply(c, ss[|steps|], step)], steps + [step])
  {
  }

  lemma Extend(c: Config, ss: seq<State>, steps: seq<Step>, step: Step)
    requires RunFromStart(c, ss, steps) && Enabled(ss[|steps|], step)
    ensures RunFromStart(c, ss + [Apply(c, ss[|steps|], step)], steps + [step])
  {
    ExtendRun(c, ss, steps, step);
  }

  lemma ReachStep(c: Config, spared: set<Mac>, s0: State, s: State, step: Step)
    requires Leads(c, spared, s0, s) && Enabled(s, step) && Spares(step, spared)
    ensures Leads(c, spared, s0, Apply(c, s, step))
  {
    var ss, steps :| SparingRun(c, spared, s0, s, ss, steps);
    ExtendRun(c, ss, steps, step);
    assert SparingRun(c, spared, s0, Apply(c, s, step), ss + [Apply(c, s, step)], steps + [step]);
  }

  lemma ReachReady(c: Config, spared: set<Mac>, s0: State, s: State)
    requires Leads(c, spared, s0, s)
    ensures PoolReady(c, s)
  {
    var ss, steps :| SparingRun(c, spared, s0, s, ss, steps);
    RunReadyFrom(c, ss, steps, 0, |steps|);
  }

  lemma ReachTick(c: Config, spared: set<Mac>, s0: State, s: State, d: nat) returns (t: State)
    requires Leads(c, spared, s0, s)
    ensures t == s.(now := s.now + d) && Leads(c, spared, s0, t)
  {
    t := Apply(c, s, Tick(d));
    ReachStep(c, spared, s0, s, Tick(d));
  }

  /** A due timer fires. */
  lemma ReachFire(c: Config, spared: set<Mac>, s0: State, s: State, timer: Timer) returns (t: State)
    requires Leads(c, spared, s0, s) && timer in s.timers && s.now >= timer.due
    ensures t == FireTimer(s, timer) && Leads(c, spared, s0, t)
  {
    t := Apply(c, s, Fire(timer));
    ReachStep(c, spared, s0, s, Fire(timer));
  }

  /** A timer that is not due yet fires on time. */
  lemma ReachDue(c: Config, spared: set<Mac>, s0: State, s: State, timer: Timer, rest: multiset<Timer>) returns (t: State)
    requires Leads(c, spared, s0, s) && s.timers == rest + multiset{timer} && s.now <= timer.due
    ensures Leads(c, spared, s0, t) && t.now == timer.due && t.timers == rest
    ensures t.pool == s.pool.Free(timer.index, timer.due) && t.leases == s.leases
    ensures t.transactions == s.transactions && t.requests == s.requests
  {
    var a := ReachTick(c, spared, s0, s, timer.due - s.now);
    t := ReachFire(c, spared, s0, a, timer);
  }

  function Later(a: int, b: int): (r: int)
    ensures r >= a && r >= b && (r == a || r == b)
  {
    if a < b then b else a
  }

  lemma FireFrees(s: State, timer: Timer)
    requires s.pool.Valid() && timer.index < s.pool.capacity
    ensures var t := FireTimer(s, timer); timer.index in t.pool.free && t.leases == s.leases && t.now == s.now
  {
  }

  /** A pending timer fires as soon as it is due and frees its index. */
  lemma ReachPending(c: Config, spared: set<Mac>, s0: State, s: State, timer: Timer) returns (t: State)
    requires Leads(c, spared, s0, s) && timer in s.timers && timer.index < c.range
    ensures Leads(c, spared, s0, t) && timer.index in t.pool.free && t.leases == s.leases
    ensures t.now == Later(s.now, timer.due) && t.timers == s.timers - multiset{timer}
    ensures t.pool == s.pool.Free(timer.index, t.now)
  {
    ReachReady(c, spared, s0, s);
    var a := ReachTick(c, spared, s0, s, Later(s.now, timer.due) - s.now);
    FireFrees(a, timer);
    t := ReachFire(c, spared, s0, a, timer);
  }

  lemma EvictStep(c: Config, s: State, mac: Mac)
    requires mac in s.leases
    ensures var t := Apply(c, s, Evict(mac));
            && t.pool == s.pool && t.transactions == s.transactions && t.now == s.now
            && t.leases == s.leases - {mac}
            && t.timers == s.timers + multiset{Timer(s.leases[mac].value, s.now + EVICTION_DELAY, Evicted)}
  {
  }

  /** Any lease entry can expire and be evicted. */
  lemma ReachEvict(c: Config, spared: set<Mac>, s0: State, s: State, mac: Mac) returns (t: State, timer: Timer)
    requires Leads(c, spared, s0, s) && mac in s.leases
    ensures Leads(c, spared, s0, t) && t.pool == s.pool && t.transactions == s.transactions
    ensures t.leases == s.leases - {mac} && t.timers == s.timers + multiset{timer}
    ensures timer.index == s.leases[mac].value && timer.due == t.now + EVICTION_DELAY
  {
    var e := s.leases[mac];
    var a := ReachTick(c, spared, s0, s, if s.now > e.expires then 0 else e.expires + 1 - s.now);
    t := Apply(c, a, Evict(mac));
    ReachStep(c, spared, s0, a, Evict(mac));
    EvictStep(c, a, mac);
    timer := Timer(e.value, a.now + EVICTION_DELAY, Evicted);
  }

  /** Then its index can be freed thirty seconds later. */
  lemma EvictAndFree(c: Config, spared: set<Mac>, s0: State, s: State, mac: Mac) returns (t: State)
    requires Leads(c, spared, s0, s) && mac in s.leases
    ensures Leads(c, spared, s0, t)
    ensures t.pool == s.pool.Free(s.leases[mac].value, t.now) && t.timers == s.timers
    ensures t.leases == s.leases - {mac} && t.transactions == s.transactions
  {
    var a, timer := ReachEvict(c, spared, s0, s, mac);
    t := ReachDue(c, spared, s0, a, timer, s.timers);
  }

  /** Any transaction mark can expire. */
  lemma ReachUnmarked(c: Config, spared: set<Mac>, s0: State, s: State, m: Message) returns (t: State)
    requires Leads(c, spared, s0, s)
    ensures Leads(c, spared, s0, t) && !Duplicate(c, t, m) && s.now <= t.now && t == s.(now := t.now)
  {
    var d: nat := 0;
    if Duplicate(c, s, m) {
      d := s.transactions[KeyOf(c, m)].expires + 1 - s.now;
    }
    t := ReachTick(c, spared, s0, s, d);
  }

  /** The client has no transaction in progress. */
  ghost predicate NoTrace(s: State, mac: Mac) {
    forall k :: k in s.transactions ==> k.mac != mac
  }

  lemma {:induction false} LongerThanAll(avoid: set<string>) returns (n: nat)
    ensures forall t :: t in avoid ==> |t| < n
  {
    n := 0;
    if avoid != {} {
      var t :| t in avoid;
      n := LongerThanAll(avoid - {t});
      n := if |t| < n then n else |t| + 1;
    }
  }

  /** There is always a client that was never heard of. */
  lemma FreshMac(c: Config, s: State, spared: set<Mac>) returns (mac: Mac)
    ensures ClientMac(mac) && !c.Static(mac) && mac !in s.leases && NoTrace(s, mac) && mac !in spared
  {
    var seen := set k | k in s.transactions :: k.mac;
    var n := LongerThanAll(c.positions.Keys + s.leases.Keys + seen + spared + {FREE_MAC, FAKE_MAC});
    mac := seq(n, _ => 'a');
    assert |mac| == n;
  }

  lemma BytesOf(a: u32) returns (b: seq<u8>)
    ensures |b| == 4 && BigEndian32(b) == a
  {
    var h := a / TWO_8;
    var g := h / TWO_8;
    b := [g / TWO_8, g % TWO_8, h % TWO_8, a % TWO_8];
  }

  /** A Discover that names index i in option 50. */
  lemma Naming(c: Config, mac: Mac, i: nat) returns (m: Message)
    requires i < c.range && c.Valid()
    ensures m.kind == DiscoverKind && m.mac == mac && AsksFor(c, m, i)
  {
    var bytes := BytesOf(c.AddressOf(i));
    m := Message(DiscoverKind, mac, 0, Some(bytes), 0, None);
    IndexRoundTrip(c.start, c.range, i);
  }

  // ---------- Freeing a static position ----------

  /** The request of a static client for its position is ACKed and gets a lease entry. */
  lemma StaticAck(c: Config, s: State, m: Message, pick: nat, e: nat)
    requires PoolReady(c, s) && StaticAt(c, m.mac, e) && e < c.range && !Duplicate(c, s, m)
    requires m.kind == RequestKind && m.requested == None && m.ciaddr == c.AddressOf(e) && m.serverId == None
    requires c.AddressOf(e) != 0
    ensures var t := Apply(c, s, Serve(m, pick, []));
            && t.leases == s.leases[m.mac := Cached(e, s.now + c.leaseDuration + LEASE_GRACE)]
            && t.pool == s.pool.Reserve(e, m.mac) && t.timers == s.timers && t.deletes == s.deletes
  {
    IndexRoundTrip(c.start, c.range, e);
  }

  /** A static position can be freed whatever the state: its client's ACK makes a lease entry, and
      the eviction of that frees the index. */
  lemma FreeStatic(c: Config, spared: set<Mac>, s0: State, s: State, mac: Mac, e: nat) returns (t: State)
    requires Leads(c, spared, s0, s) && ClientMac(mac) && StaticAt(c, mac, e) && e < c.range && mac !in spared
    requires c.AddressOf(e) != 0
    ensures Leads(c, spared, s0, t) && t.pool.free == s.pool.free + {e} && t.timers == s.timers
    ensures forall i :: i in s.pool.mac && i != e ==> i in t.pool.mac && t.pool.mac[i] == s.pool.mac[i]
    ensures forall k :: k in s.leases && k != mac ==> k in t.leases && t.leases[k] == s.leases[k]
    ensures forall k :: k in t.leases ==> k in s.leases && k != mac
  {
    ReachReady(c, spared, s0, s);
    var pick := SomePick(s.pool);
    var m := Message(RequestKind, mac, 0, None, c.AddressOf(e), None);
    var a := ReachUnmarked(c, spared, s0, s, m);
    StaticAck(c, a, m, pick, e);
    ReachStep(c, spared, s0, a, Serve(m, pick, []));
    t := EvictAndFree(c, spared, s0, Apply(c, a, Serve(m, pick, [])), mac);
  }

  lemma SomePick(p: PoolState) returns (pick: nat)
    requires p.Valid()
    ensures p.free != {} ==> p.MayPick(pick)
  {
    pick := 0;
    if p.free != {} {
      pick := PickExists(p);
    }
  }

  // ---------- Coming to index 0 ----------

  /** What a pass leaves of the state in which it started. */
  ghost predicate Continues(s: State, t: State, p: PoolState) {
    t.pool == p && t.now == s.now && t.requests == s.requests && t.transactions == s.transactions
  }

  lemma TakenConflict(c: Config, s: State, m: Message, pick: nat)
    requires pick in s.pool.free
    ensures var p := s.pool.Taken(pick, m.mac); Continues(s, Conflict(Locked(c, s, m, p, pick), m, pick), p)
  {
  }

  lemma ZeroOffers(c: Config, s: State, m: Message)
    ensures var t := Offered(c, Locked(c, s, m, s.pool, 0), m, 0);
            Continues(s, t, s.pool) && m.mac in t.leases && t.leases[m.mac] == Cached(0, s.now + OFFER_TTL)
  {
  }

  /** After a conflict on the picked index the loop goes on with index 0, free or not. */
  lemma ConflictThenZero(c: Config, s: State, m: Message, pick: nat)
    requires PoolReady(c, s) && pick in s.pool.free && |s.pool.free| >= 2 && m.requested == None
    ensures var r := Retry(c, s, m, None, true, pick, [true]);
            && r.answer == Offer(c.AddressOf(0)) && m.mac in r.s.leases
            && r.s.leases[m.mac] == Cached(0, s.now + OFFER_TTL)
            && Continues(s, r.s, s.pool.Taken(pick, m.mac))
  {
    var p := s.pool.Taken(pick, m.mac);
    var k := Conflict(Locked(c, s, m, p, pick), m, pick);
    RetryIsSearch(c, s, m, pick, [true]);
    assert FirstChoice(c, s.pool, m, pick) == Chosen(p, pick);
    assert [true][1..] == [];
    TakenConflict(c, s, m, pick);
    assert s.pool.free == p.free + {pick};
    ZeroOffers(c, k, m);
  }

  /** A Discover of a client never heard of, whose first probe is answered. */
  lemma ZeroOffered(c: Config, spared: set<Mac>, s0: State, s: State) returns (m: Message, pick: nat, t: State)
    requires Leads(c, spared, s0, s) && |s.pool.free| >= 2
    ensures Enabled(s, Serve(m, pick, [true])) && t == Apply(c, s, Serve(m, pick, [true])) && Leads(c, spared, s0, t)
    ensures m.kind == DiscoverKind && m.requested == None && !c.Static(m.mac) && m.mac !in s.leases
    ensures Respond(c, s, m, pick, [true]).answer == Offer(c.AddressOf(0))
    ensures m.mac in t.leases && t.leases[m.mac].value == 0 && Continues(Entered(c, s, m), t, s.pool.Taken(pick, m.mac))
    ensures t.LeaseOf(m.mac) == Some(0) && m.mac !in spared && OtherLeasesKept(s, t, m.mac)
  {
    ReachReady(c, spared, s0, s);
    assert s.pool.free != {};
    pick := SomePick(s.pool);
    var mac := FreshMac(c, s, spared);
    m := Message(DiscoverKind, mac, 0, None, 0, None);
    ConflictThenZero(c, Entered(c, s, m), m, pick);
    t := Apply(c, s, Serve(m, pick, [true]));
    RespondFrame(c, s, m, pick, [true]);
    ReachStep(c, spared, s0, s, Serve(m, pick, [true]));
  }

  /** One open index can be made free without touching the others. */
  lemma FreeOpen(c: Config, s0: State, s: State, e: nat) returns (t: State)
    requires Leads(c, {}, s0, s) && Open(c, s.pool, e)
    ensures Leads(c, {}, s0, t) && t.pool.free == s.pool.free + {e}
    ensures forall i :: i in s.pool.mac && i != e ==> i in t.pool.mac
  {
    if e in s.pool.free {
      t := s;
    } else {
      ReachReady(c, {}, s0, s);
      IndexRoundTrip(c.start, c.range, e);
      var mac :| ClientMac(mac) && StaticAt(c, mac, e);
      t := FreeStatic(c, {}, s0, s, mac, e);
    }
  }

  /** Two open indexes can be made free at once. */
  lemma FreeTwo(c: Config, s0: State) returns (t: State)
    requires FreshScope(c, s0) && TwoOpen(c, s0.pool) && 0 in s0.pool.mac
    ensures Leads(c, {}, s0, t) && |t.pool.free| >= 2 && 0 in t.pool.mac
  {
    var e: nat, f: nat :| e != f && Open(c, s0.pool, e) && Open(c, s0.pool, f);
    ReachStart(c, {}, s0);
    var s := FreeOpen(c, s0, s0, e);
    t := FreeOpen(c, s0, s, f);
    assert {e, f} <= t.pool.free;
    SubsetSize({e, f}, t.pool.free);
  }
}
