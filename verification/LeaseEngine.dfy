/** The handler of one scope as it runs: an object whose caches and pool are updated step by step. Its
    invariant is that the calls made so far are a run of the state machine, so every call keeps what
    runs guarantee. */
module LeaseEngine {
  import opened Basics
  import opened Address
  import opened Decimal
  import opened Pool
  import opened Lease
  import opened LeaseEffects
  import opened LeaseBooks
  import opened LeaseAcks
  import opened LeaseCoverage
  import opened LeaseAlone
  import opened LeaseReserved
  import opened LeaseWitness

  /** What one pass of the retry loop found. */
  datatype Found = Nothing | Again | At(index: nat)

  /** How one pass of the retry loop ended. */
  datatype Round = Done(answer: Answer) | Untried | InUse

  /** What a run guarantees of the state it has reached: the pool's partition, exclusive ACKs, balanced
      timers, configured addresses untouched, and, if no step lost an address, none lost. */
  ghost predicate Sound(c: Config, ss: seq<State>, steps: seq<Step>)
    requires |ss| == |steps| + 1
  {
    var s, p := ss[|steps|], ss[0].pool;
    && PoolReady(c, s) && Exclusive(c, s) && Balanced(s)
    && (StandingOwners(c, p) ==> forall e :: e in p.mac ==> ReservedKept(c, p, s, e))
    && (Lossless(c, ss, steps) ==> NoneLost(s, p.mac.Keys))
  }

  /** If e is sheltered and nobody's static position, it still has its first owner, without lease entry or
      timer, and was told to nobody. */
  ghost predicate ReservedKept(c: Config, p: PoolState, s: State, e: nat)
    requires e in p.mac
  {
    Sheltered(c, p, e) && !StaticClientAt(c, e) ==> Untouched(s, e, p.mac[e]) && !ServedIn(c, s.log, e)
  }

  ghost predicate Lossless(c: Config, ss: seq<State>, steps: seq<Step>)
    requires |ss| == |steps| + 1
  {
    forall k {:trigger steps[k]} :: 0 <= k < |steps| ==> !Loses(c, ss[k], steps[k], ss[0].pool.mac.Keys)
  }

  lemma RunSound(c: Config, ss: seq<State>, steps: seq<Step>)
    requires RunFromStart(c, ss, steps)
    ensures Sound(c, ss, steps)
  {
    RunPoolReady(c, ss, steps, |steps|);
    RunExclusive(c, ss, steps, |steps|);
    RunBalanced(c, ss, steps, |steps|);
    if Lossless(c, ss, steps) {
      NoAddressLost(c, ss, steps, |steps|);
    }
    var p := ss[0].pool;
    if StandingOwners(c, p) {
      forall e | e in p.mac
        ensures ReservedKept(c, p, ss[|steps|], e)
      {
        if Sheltered(c, p, e) && !StaticClientAt(c, e) {
          ShelteredStays(c, ss, steps, |steps|, e);
          NotServedIn(c, ss, steps, e);
        }
      }
    }
  }

  class Scope {
    const c: Config
    const available: DHCPPool
    var leases: map<Mac, Cached<nat>>
    var xids: map<string, Cached<int>>
    var transactions: map<Transaction, Cached<int>>
    var requests: map<Transaction, Cached<int>>
    var ips: map<u32, Cached<Mac>>
    var macs: map<Mac, Cached<u32>>
    var timers: multiset<Timer>
    var deletes: multiset<Mac>
    var now: int
    ghost var log: seq<Event>
    ghost var ss: seq<State>
    ghost var steps: seq<Step>

    ghost function View(): State
      reads this, available
    {
      State(available.View(), leases, xids, transactions, requests, ips, macs, timers, deletes, now, log)
    }

    /** The calls made so far are a run from the configured scope to the present state. */
    ghost predicate Valid()
      reads this, available
    {
      RunFromStart(c, ss, steps) && View() == ss[|steps|]
    }

    constructor (c: Config, available: DHCPPool, now: int)
      requires c.Valid() && available.View().Valid() && available.capacity == c.range
      ensures this.c == c && this.available == available
      ensures Valid() && View() == Start(available.View(), now) && steps == []
    {
      this.c := c;
      this.available := available;
      leases, xids, transactions, requests, ips, macs := map[], map[], map[], map[], map[], map[];
      timers, deletes, this.now, log := multiset{}, multiset{}, now, [];
      ss, steps := [Start(available.View(), now)], [];
    }

    /** Enters the step just made into the run. */
    ghost method Record(step: Step)
      requires RunFromStart(c, ss, steps) && Enabled(ss[|steps|], step) && View() == Apply(c, ss[|steps|], step)
      modifies this`ss, this`steps
      ensures Valid() && steps == old(steps) + [step] && ss[0] == old(ss[0])
    {
      Extend(c, ss, steps, step);
      ss, steps := ss + [View()], steps + [step];
    }

    method SetLease(mac: Mac, i: nat, ttl: int)
      modifies this`leases
      ensures View() == old(View()).SetLease(mac, i, ttl)
    {
      leases := leases[mac := Cached(i, now + ttl)];
    }

    method Schedule(i: nat, delay: int, cause: Cause)
      modifies this`timers, this`log
      ensures View() == old(View()).Schedule(i, delay, cause)
    {
      var t := Timer(i, now + delay, cause);
      timers := timers + multiset{t};
      log := log + [Scheduled(t, now)];
    }

    method DeleteLease(mac: Mac)
      modifies this`leases, this`timers, this`log
      ensures View() == old(View()).DeleteLease(mac)
    {
      if mac in leases {
        var i := leases[mac].value;
        leases := leases - {mac};
        log := log + [Dropped(mac, i)];
        Schedule(i, EVICTION_DELAY, Evicted);
      }
    }

    /** Looks for an address, first the one the client asks for, then the next free one. */
    method FindAddress(m: Message, free: Option<nat>, firstTry: bool, draw: nat) returns (found: Found, ghost pick: nat)
      requires available.View().Valid()
      requires free.None? && available.free != map[] ==> draw < |available.free|
      modifies available
      ensures available.View().Valid()
      ensures old(available.View()).free != {} ==> old(available.View()).MayPick(pick)
      ensures match Choose(c, old(available.View()), m, free, firstTry, pick)
              case GiveUp => found == Nothing && available.View() == old(available.View())
              case TryAgain => found == Again && available.View() == old(available.View())
              case Chosen(p, i) => found == At(i) && available.View() == p
    {
      pick := 0;
      found := Nothing;
      var n := available.FreeIPsRemaining();
      if n == 0 {
        return;
      }
      pick := PickExists(available.View());
      if m.requested.Some? && firstTry {
        var b := m.requested.value;
        if |b| < 4 {
          return;
        }
        var element := Position(c.start, BigEndian32(b));
        var owner, _ := available.GetMACIndex(element);
        if owner == m.mac {
          found := At(element);
        } else if owner == FREE_MAC {
          var ok, returned := available.ReserveIPIndex(element, m.mac);
          if ok && returned == m.mac {
            found := At(element);
          }
        } else {
          found := Again;
          return;
        }
      }
      if found == Nothing && free.Some? {
        found := At(free.value);
      }
      if found == Nothing {
        var i, ok := available.GetFreeIPIndex(m.mac, draw);
        pick := i;
        found := At(i);
      }
    }

    /** Locks the address for the client while it is probed. */
    method Lock(m: Message, i: nat)
      modifies this`leases, this`xids
      ensures View() == Locked(c, old(View()), m, old(available.View()), i)
    {
      SetLease(m.mac, i, OFFER_TTL);
      xids := xids[c.byteToString(m.xid) := Cached(0, now + XID_TTL)];
    }

    /** Something answers at the address: declares it unusable for ten minutes. */
    method PutAside(m: Message, i: nat)
      modifies this`leases, this`timers, this`log, available
      ensures View() == Conflict(old(View()), m, i)
    {
      DeleteLease(m.mac);
      var _, _ := available.ReserveIPIndex(i, FAKE_MAC);
      Schedule(i, UNUSABLE_DELAY, ProbeConflict);
    }

    method Promise(m: Message, i: nat)
      modifies this`leases, this`xids
      ensures View() == Offered(c, old(View()), m, i)
    {
      SetLease(m.mac, i, OFFER_TTL);
      var key := c.byteToString(m.xid);
      if Get(xids, key, now).Some? {
        xids := xids[key := Cached(1, now + XID_TTL)];
      }
    }

    /** Probes the address that was found: an offer, or the address is put aside. */
    method ProbeAddress(m: Message, i: nat, answered: bool)
      requires available.View().Valid()
      modifies this, available
      ensures unchanged(`ss, `steps)
      ensures available.View().Valid()
      ensures var l := Locked(c, old(View()), m, old(available.View()), i);
              View() == if answered then Conflict(l, m, i) else Offered(c, l, m, i)
    {
      Lock(m, i);
      if answered {
        PutAside(m, i);
      } else {
        Promise(m, i);
      }
    }

    /** One pass of the retry loop; `answered` is the answer of its probe. */
    method Pass(m: Message, free: Option<nat>, firstTry: bool, draw: nat, answered: bool) returns (round: Round, ghost pick: nat)
      requires available.View().Valid()
      requires free.None? && available.free != map[] ==> draw < |available.free|
      modifies this, available
      ensures unchanged(`ss, `steps)
      ensures available.View().Valid()
      ensures old(View()).pool.free != {} ==> old(View()).pool.MayPick(pick)
      ensures match Choose(c, old(View()).pool, m, free, firstTry, pick)
              case GiveUp => round == Done(Silent) && View() == old(View())
              case TryAgain => round == Untried && View() == old(View())
              case Chosen(p, i) =>
                var l := Locked(c, old(View()), m, p, i);
                if answered then round == InUse && View() == Conflict(l, m, i)
                else round == Done(Offer(c.AddressOf(i))) && View() == Offered(c, l, m, i)
    {
      var found;
      found, pick := FindAddress(m, free, firstTry, draw);
      match found
      case Nothing => round := Done(Silent);
      case Again => round := Untried;
      case At(i) =>
        ProbeAddress(m, i, answered);
        round := if answered then InUse else Done(Offer(IPAdd(c.start, i)));
    }

    /** The retry loop of Discover; it terminates because every round but the first uses up a
        positive probe answer. */
    method RetryLoop(m: Message, draw: nat, probes: seq<bool>) returns (a: Answer, ghost pick: nat)
      requires available.View().Valid()
      requires available.free != map[] ==> draw < |available.free|
      modifies this, available
      ensures unchanged(`ss, `steps)
      ensures old(View()).pool.free != {} ==> old(View()).pool.MayPick(pick)
      ensures Reply(View(), a) == Retry(c, old(View()), m, None, true, pick, probes)
    {
      var free: Option<nat>, firstTry, rest := None, true, probes;
      ghost var s0 := View();
      pick := 0;
      while true
        invariant available.View().Valid() && unchanged(`ss, `steps)
        invariant free.None? ==> View() == s0 && rest == probes
        invariant free.None? && !firstTry ==> Choose(c, s0.pool, m, None, true, pick) == TryAgain
        invariant free.Some? ==> !firstTry && (s0.pool.free != {} ==> s0.pool.MayPick(pick))
        invariant free.Some? ==> Retry(c, s0, m, None, true, pick, probes) == Retry(c, View(), m, free, false, pick, rest)
        decreases |rest|, firstTry
      {
        ghost var s := View();
        var round, p := Pass(m, free, firstTry, draw, rest != [] && rest[0]);
        SamePass(c, s, s0, m, free, firstTry, pick, p, rest);
        pick := if free.None? then p else pick;
        match round
        case Done(answer) => return answer, pick;
        case Untried => firstTry := false;
        case InUse => firstTry, free, rest := false, Some(0), rest[1..];
      }
    }

    method Discover(m: Message, draw: nat, probes: seq<bool>) returns (a: Answer, ghost pick: nat)
      requires available.View().Valid()
      requires available.free != map[] ==> draw < |available.free|
      modifies this, available
      ensures unchanged(`ss, `steps)
      ensures old(View()).pool.free != {} ==> old(View()).pool.MayPick(pick)
      ensures Reply(View(), a) == Lease.Discover(c, old(View()), m, pick, probes)
    {
      pick := AnyPick();
      if m.mac in c.positions {
        return Offer(IPAdd(c.start, c.positions[m.mac])), pick;
      }
      var x := Get(leases, m.mac, now);
      if x.Some? {
        var owner, _ := available.GetMACIndex(x.value);
        if owner == m.mac {
          SetLease(m.mac, x.value, OFFER_TTL);
          return Offer(IPAdd(c.start, x.value)), pick;
        } else if owner == FREE_MAC {
          DeleteLease(m.mac);
          var ok, _ := available.ReserveIPIndex(x.value, m.mac);
          if ok {
            return Silent, pick;
          }
        }
      }
      a, pick := RetryLoop(m, draw, probes);
    }

    /** Notes the client's address in both global caches. */
    method NoteAddress(mac: Mac, ip: u32, until: int)
      modifies this`ips, this`macs
      ensures View() == old(View()).(ips := old(ips)[ip := Cached(mac, until)], macs := old(macs)[mac := Cached(ip, until)])
    {
      ips := ips[ip := Cached(mac, until)];
      macs := macs[mac := Cached(ip, until)];
    }

    method Acknowledge(m: Message, ip: u32, i: nat) returns (a: Answer)
      modifies this`ips, this`macs, this`leases, available
      ensures Reply(View(), a) == Lease.Acknowledge(c, old(View()), m, ip, i)
    {
      NoteAddress(m.mac, ip, now + c.leaseDuration + LEASE_GRACE);
      SetLease(m.mac, i, c.leaseDuration + LEASE_GRACE);
      var _, _ := available.ReserveIPIndex(i, m.mac);
      a := Ack(ip);
    }

    /** The request names the address of the entry: it is marked and answered by the pool's record. */
    method RequestMatching(m: Message, ip: u32, index: nat) returns (a: Answer)
      requires IPAdd(c.start, index) == ip
      modifies this`requests, this`ips, this`macs, this`leases, available
      ensures Reply(View(), a) == Lease.RequestLeased(c, old(View()), m, ip, index)
    {
      var key := KeyOf(c, m);
      if Get(requests, key, now).Some? {
        return Silent;
      }
      var owner, _ := available.GetMACIndex(index);
      requests := requests[key := Cached(1, now + TRANSACTION_TTL)];
      if owner == m.mac {
        a := Acknowledge(m, ip, index);
      } else {
        a := Nak;
      }
    }

    method RequestLeased(m: Message, ip: u32, index: nat) returns (a: Answer)
      modifies this`requests, this`ips, this`macs, this`leases, this`timers, this`log, available
      ensures Reply(View(), a) == Lease.RequestLeased(c, old(View()), m, ip, index)
    {
      if IPAdd(c.start, index) == ip {
        a := RequestMatching(m, ip, index);
      } else {
        if Get(xids, Text(m.xid), now) == Some(1) {
          DeleteLease(m.mac);
        }
        a := Nak;
      }
    }

    method Request(m: Message) returns (a: Answer)
      modifies this`requests, this`ips, this`macs, this`leases, this`timers, this`log, available
      ensures Reply(View(), a) == Lease.Request(c, old(View()), m)
    {
      if ForAnotherServer(c, m) {
        return Silent;
      }
      var ip := RequestWants(m);
      if ip.None? {
        return Nak;
      }
      var leaseNum := IPRange(c.start, ip.value) - 1;
      if !(0 <= leaseNum < c.range) {
        return Nak;
      }
      if m.mac in c.positions {
        if c.positions[m.mac] != leaseNum {
          return Nak;
        }
        a := Acknowledge(m, ip.value, leaseNum);
      } else {
        var index := Get(leases, m.mac, now);
        if index.None? {
          return Silent;
        }
        a := RequestLeased(m, ip.value, index.value);
      }
    }

    /** Marks the address, schedules its free and leaves the delete of the entry to a goroutine. */
    method Withdraw(m: Message, i: nat, cause: Cause)
      modifies this`timers, this`log, this`deletes, available
      ensures var s1 := old(View()).WithPool(old(View()).pool.Reserve(i, FAKE_MAC)).Schedule(i, UNUSABLE_DELAY, cause);
              View() == s1.(deletes := s1.deletes + multiset{m.mac})
    {
      var _, _ := available.ReserveIPIndex(i, FAKE_MAC);
      Schedule(i, UNUSABLE_DELAY, cause);
      deletes := deletes + multiset{m.mac};
    }

    /** Release and Decline. */
    method GiveBack(m: Message, cause: Cause)
      modifies this`timers, this`log, this`deletes, available
      ensures View() == Lease.GiveBack(c, old(View()), m, cause)
    {
      var ip := ReleaseWants(m);
      if ip.None? {
        return;
      }
      var leaseNum := IPRange(c.start, ip.value) - 1;
      if 0 <= leaseNum < c.range {
        var x := Get(leases, m.mac, now);
        if x.Some? && leaseNum == x.value {
          var owner, _ := available.GetMACIndex(x.value);
          if owner == m.mac {
            Withdraw(m, leaseNum, cause);
          }
        }
      }
    }

    method Handle(m: Message, draw: nat, probes: seq<bool>) returns (a: Answer, ghost pick: nat)
      requires available.View().Valid()
      requires available.free != map[] ==> draw < |available.free|
      modifies this, available
      ensures unchanged(`ss, `steps)
      ensures old(View()).pool.free != {} ==> old(View()).pool.MayPick(pick)
      ensures Reply(View(), a) == Lease.Handle(c, old(View()), m, pick, probes)
    {
      pick := AnyPick();
      match m.kind
      case DiscoverKind => a, pick := Discover(m, draw, probes);
      case RequestKind => a := Request(m);
      case InformKind => a := Request(m);
      case ReleaseKind =>
        GiveBack(m, ByRelease);
        a := Silent;
      case DeclineKind =>
        GiveBack(m, ByDecline);
        a := Silent;
      case OfferKind => a := Nak;
      case AckKind => a := Nak;
      case NakKind => a := Nak;
    }

    /** Marks the message as being in progress, unless it is already. */
    method Enter(m: Message) returns (duplicate: bool)
      modifies this`transactions
      ensures duplicate == Duplicate(c, old(View()), m)
      ensures View() == if duplicate then old(View()) else Entered(c, old(View()), m)
    {
      var key := KeyOf(c, m);
      duplicate := Get(transactions, key, now).Some?;
      if !duplicate {
        transactions := transactions[key := Cached(1, now + TRANSACTION_TTL)];
      }
    }

    ghost method AnyPick() returns (pick: nat)
      requires available.View().Valid()
      ensures available.View().free != {} ==> available.View().MayPick(pick)
    {
      pick := 0;
      if available.View().free != {} {
        pick := PickExists(available.View());
      }
    }

    /** Ignores a message already in progress and handles any other. */
    method Respond(m: Message, draw: nat, probes: seq<bool>) returns (a: Answer, ghost pick: nat)
      requires available.View().Valid()
      requires available.free != map[] ==> draw < |available.free|
      modifies this, available
      ensures unchanged(`ss, `steps)
      ensures old(View()).pool.free != {} ==> old(View()).pool.MayPick(pick)
      ensures Reply(View(), a) == Lease.Respond(c, old(View()), m, pick, probes)
    {
      var duplicate := Enter(m);
      if duplicate {
        pick := AnyPick();
        a := Silent;
      } else {
        a, pick := Handle(m, draw, probes);
      }
    }

    /** Serving a message is a step of the run. An ACK to a client without static assignment names an index
        the pool records as the client's, and no message is answered with a configured address that
        is sheltered and nobody's static position. */
    method ServeDHCP(m: Message, draw: nat, probes: seq<bool>) returns (a: Answer, ghost pick: nat)
      requires Valid()
      requires available.free != map[] ==> draw < |available.free|
      modifies this, available
      ensures a == Lease.Respond(c, old(View()), m, pick, probes).answer
      ensures View() == Apply(c, old(View()), Serve(m, pick, probes))
      ensures ClientMac(m.mac) ==> Valid() && steps == old(steps) + [Serve(m, pick, probes)] && Sound(c, ss, steps)
      ensures ClientMac(m.mac) && a.Ack? && !c.Static(m.mac) ==>
                IndexOf(c, a.ip).Some? && available.View().Owner(IndexOf(c, a.ip).value) == m.mac
      ensures ClientMac(m.mac) && StandingOwners(c, old(ss[0]).pool) ==>
                forall e :: e in old(ss[0]).pool.mac && Sheltered(c, old(ss[0]).pool, e) && !StaticClientAt(c, e) ==>
                  !Mentions(c, Answered(m.mac, a), e)
    {
      ghost var s := View();
      ValidPool();
      a, pick := Respond(m, draw, probes);
      log := log + [Answered(m.mac, a)];
      if ClientMac(m.mac) {
        Record(Serve(m, pick, probes));
        RunSound(c, ss, steps);
        AckRecorded(c, s, m, pick, probes);
        AnswerIsLast(c, s, m, pick, probes);
      }
    }

    lemma ValidPool()
      requires Valid()
      ensures PoolReady(c, View())
    {
      RunPoolReady(c, ss, steps, |steps|);
    }

    /** The cache's janitor removes an expired entry. */
    method EvictExpired(mac: Mac)
      requires Valid() && mac in leases && now > leases[mac].expires
      modifies this
      ensures View() == Apply(c, old(View()), Evict(mac))
      ensures Valid() && steps == old(steps) + [Evict(mac)] && Sound(c, ss, steps)
    {
      DeleteLease(mac);
      Record(Evict(mac));
      RunSound(c, ss, steps);
    }

    /** The goroutine a Release or Decline left behind deletes the entry. */
    method RunDelete(mac: Mac)
      requires Valid() && mac in deletes
      modifies this
      ensures View() == Apply(c, old(View()), Delete(mac))
      ensures Valid() && steps == old(steps) + [Delete(mac)] && Sound(c, ss, steps)
    {
      deletes := deletes - multiset{mac};
      DeleteLease(mac);
      Record(Delete(mac));
      RunSound(c, ss, steps);
    }

    /** A sleeping goroutine wakes up and frees its index. */
    method RunTimer(t: Timer)
      requires Valid() && t in timers && now >= t.due
      modifies this, available
      ensures View() == Apply(c, old(View()), Fire(t))
      ensures Valid() && steps == old(steps) + [Fire(t)] && Sound(c, ss, steps)
    {
      timers := timers - multiset{t};
      var ok := available.FreeIPIndex(t.index, now);
      log := log + [Fired(t, now, ok)];
      Record(Fire(t));
      RunSound(c, ss, steps);
    }

    /** The release of an address through the API; returns the network the client's address is in. */
    method InterfaceScopeFromMac(mac: Mac) returns (network: string)
      requires Valid()
      modifies this
      ensures View() == Apply(c, old(View()), ApiRelease(mac))
      ensures network == var ip := Get(old(macs), mac, old(now)); if ip.Some? && c.inNetwork(ip.value) then c.network else ""
      ensures Valid() && steps == old(steps) + [ApiRelease(mac)] && Sound(c, ss, steps)
    {
      network := "";
      var ip := Get(macs, mac, now);
      if ip.Some? && c.inNetwork(ip.value) {
        network := c.network;
        var x := Get(leases, mac, now);
        if x.Some? {
          SetLease(mac, x.value, API_RELEASE_TTL);
        }
      }
      Record(ApiRelease(mac));
      RunSound(c, ss, steps);
    }

    /** Time passes. */
    method Tick(d: nat)
      requires Valid()
      modifies this
      ensures View() == Apply(c, old(View()), Lease.Tick(d))
      ensures Valid() && steps == old(steps) + [Lease.Tick(d)] && Sound(c, ss, steps)
    {
      now := now + d;
      Record(Lease.Tick(d));
      RunSound(c, ss, steps);
    }
  }

  /** A dynamic ACK names an index the pool records as the client's, also after the step. */
  lemma AckRecorded(c: Config, s: State, m: Message, pick: nat, probes: seq<bool>)
    requires PoolReady(c, s) && Enabled(s, Serve(m, pick, probes))
    ensures var a := Lease.Respond(c, s, m, pick, probes).answer;
            a.Ack? && !c.Static(m.mac) ==>
              IndexOf(c, a.ip).Some? && Apply(c, s, Serve(m, pick, probes)).pool.Owner(IndexOf(c, a.ip).value) == m.mac
  {
    RespondFrame(c, s, m, pick, probes);
    if Lease.Respond(c, s, m, pick, probes).answer.Ack? && !c.Static(m.mac) {
      AckIsOwned(c, s, m, pick, probes);
    }
  }

  /** The answer is the last event, so what was told to nobody is not in it. */
  lemma AnswerIsLast(c: Config, s: State, m: Message, pick: nat, probes: seq<bool>)
    ensures var t, a := Apply(c, s, Serve(m, pick, probes)), Lease.Respond(c, s, m, pick, probes).answer;
            forall e: nat :: Mentions(c, Answered(m.mac, a), e) ==> ServedIn(c, t.log, e)
  {
    var log := Apply(c, s, Serve(m, pick, probes)).log;
    assert log[|log| - 1] == Answered(m.mac, Lease.Respond(c, s, m, pick, probes).answer);
  }

  /** In a pass that still has to pick, any pick continues the loop; in a later pass picks play no role. */
  lemma SamePass(c: Config, s: State, s0: State, m: Message, free: Option<nat>, firstTry: bool, pick: nat, p: nat, rest: seq<bool>)
    requires free.None? ==> s == s0
    requires free.None? && !firstTry ==> Choose(c, s0.pool, m, None, true, pick) == TryAgain
    ensures free.None? ==> Retry(c, s0, m, None, true, p, rest) == Retry(c, s, m, None, firstTry, p, rest)
    ensures free.None? && !firstTry ==> Choose(c, s0.pool, m, None, true, p) == TryAgain
    ensures free.Some? ==> Choose(c, s.pool, m, free, firstTry, p) == Choose(c, s.pool, m, free, firstTry, pick)
  {
  }
}
