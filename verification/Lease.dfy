/** The lease engine of one scope as a state machine: the pool, the lease cache with its
    eviction hook, the transaction caches, the delayed frees and a history of events. */
module Lease {
  import opened Basics
  import opened Address
  import opened Pool
  import opened Decimal

  // Times are nanoseconds.
  const SECOND: int := 1_000_000_000
  const OFFER_TTL: int := 5 * SECOND
  const XID_TTL: int := 5 * SECOND
  const TRANSACTION_TTL: int := 1 * SECOND
  const API_RELEASE_TTL: int := 3 * SECOND
  const LEASE_GRACE: int := 15 * SECOND
  const EVICTION_DELAY: int := 30 * SECOND
  const UNUSABLE_DELAY: int := 600 * SECOND

  /** `byteToString` is the library function naming a transaction id, `inNetwork` tells which
      addresses belong to the scope's network; both are arbitrary here. */
  datatype Config = Config(start: u32, range: nat, leaseDuration: nat, serverIp: u32,
                           positions: map<Mac, u32>, network: string,
                           byteToString: u32 -> string, inNetwork: u32 -> bool)
  {
    ghost predicate Valid() {
      1 <= range && start + range <= TWO_32
    }

    predicate Static(mac: Mac) {
      mac in positions
    }

    function AddressOf(i: int): u32 {
      IPAdd(start, i)
    }
  }

  datatype Kind = DiscoverKind | OfferKind | RequestKind | DeclineKind | AckKind | NakKind | ReleaseKind | InformKind

  /** `requested` is option 50, `serverId` option 54. */
  datatype Message = Message(kind: Kind, mac: Mac, xid: u32, requested: Option<seq<u8>>,
                             ciaddr: u32, serverId: Option<seq<u8>>)

  datatype Answer = Silent | Offer(ip: u32) | Ack(ip: u32) | Nak

  datatype Cause = Evicted | ProbeConflict | ByRelease | ByDecline

  /** A goroutine sleeping until `due` and then freeing `index`. */
  datatype Timer = Timer(index: nat, due: int, cause: Cause)

  datatype Event =
    | Answered(mac: Mac, answer: Answer)
    | Scheduled(timer: Timer, at: int)
    | Fired(timer: Timer, at: int, freed: bool)
    | Dropped(mac: Mac, index: nat)

  /** An entry of a go-cache; `Get` sees it until it expires. */
  datatype Cached<+T> = Cached(value: T, expires: int)

  function Get<K, V>(cache: map<K, Cached<V>>, key: K, now: int): Option<V> {
    if key in cache && now <= cache[key].expires then Some(cache[key].value) else None
  }

  /** The key of the transaction caches: two ids with one name are one transaction. */
  datatype Transaction = Transaction(mac: Mac, kind: Kind, name: string)

  function KeyOf(c: Config, m: Message): Transaction {
    Transaction(m.mac, m.kind, c.byteToString(m.xid))
  }

  datatype State = State(pool: PoolState,
                         leases: map<Mac, Cached<nat>>,
                         xids: map<string, Cached<int>>,
                         transactions: map<Transaction, Cached<int>>,
                         requests: map<Transaction, Cached<int>>,
                         ips: map<u32, Cached<Mac>>,
                         macs: map<Mac, Cached<u32>>,
                         timers: multiset<Timer>,
                         deletes: multiset<Mac>,
                         now: int,
                         log: seq<Event>)
  {
    function LeaseOf(mac: Mac): Option<nat> {
      Get(leases, mac, now)
    }

    function SetLease(mac: Mac, i: nat, ttl: int): State {
      this.(leases := leases[mac := Cached(i, now + ttl)])
    }

    function Schedule(i: nat, delay: int, cause: Cause): State {
      var t := Timer(i, now + delay, cause);
      this.(timers := timers + multiset{t}, log := log + [Scheduled(t, now)])
    }

    /** `hwcache.Delete`: removes the entry, expired or not, and runs the eviction hook. */
    function DeleteLease(mac: Mac): State {
      if mac in leases then
        var i := leases[mac].value;
        this.(leases := leases - {mac}, log := log + [Dropped(mac, i)]).Schedule(i, EVICTION_DELAY, Evicted)
      else this
    }

    function WithPool(p: PoolState): State {
      this.(pool := p)
    }

    function SetXid(key: string, v: int): State {
      this.(xids := xids[key := Cached(v, now + XID_TTL)])
    }

    function ReplaceXid(key: string, v: int): State {
      if Get(xids, key, now).Some? then SetXid(key, v) else this
    }

    function Log(e: Event): State {
      this.(log := log + [e])
    }
  }

  datatype Reply = Reply(s: State, answer: Answer)

  // ---------- Discover ----------

  datatype Wanted = NoAddress | Malformed | Wants(ip: u32)

  /** Option 50 as Discover reads it: its first four bytes; a shorter one panics. */
  function DiscoverWants(m: Message): Wanted {
    match m.requested
    case None => NoAddress
    case Some(b) => if |b| >= 4 then Wants(BigEndian32(b)) else Malformed
  }

  /** The outcome of looking for an address in one pass of the retry loop. */
  datatype Choice = GiveUp | TryAgain | Chosen(pool: PoolState, index: nat)

  function Choose(c: Config, p: PoolState, m: Message, free: Option<nat>, firstTry: bool, pick: nat): Choice {
    if p.free == {} then GiveUp
    else
      match if firstTry then DiscoverWants(m) else NoAddress
      case Malformed => GiveUp
      case NoAddress => Grab(p, m.mac, free, pick)
      case Wants(ip) =>
        var element := Position(c.start, ip);
        var owner := p.Owner(element);
        if owner == m.mac then Chosen(p, element)
        else if owner != FREE_MAC then TryAgain
        else if p.CanReserve(element) then Chosen(p.Reserve(element, m.mac), element)
        else Grab(p, m.mac, free, pick)
  }

  function Grab(p: PoolState, mac: Mac, free: Option<nat>, pick: nat): Choice {
    if free.Some? then Chosen(p, free.value) else Chosen(p.Taken(pick, mac), pick)
  }

  /** The state in which the chosen address is probed. */
  function Locked(c: Config, s: State, m: Message, p: PoolState, i: nat): State {
    s.WithPool(p).SetLease(m.mac, i, OFFER_TTL).SetXid(c.byteToString(m.xid), 0)
  }

  /** The probe was answered: the address is put aside for ten minutes. */
  function Conflict(s: State, m: Message, i: nat): State {
    var d := s.DeleteLease(m.mac);
    d.WithPool(d.pool.Reserve(i, FAKE_MAC)).Schedule(i, UNUSABLE_DELAY, ProbeConflict)
  }

  function Offered(c: Config, s: State, m: Message, i: nat): State {
    s.SetLease(m.mac, i, OFFER_TTL).ReplaceXid(c.byteToString(m.xid), 1)
  }

  /** The retry loop. `probes` are the answers of the coming probes, all negative once the
      sequence is exhausted; `pick` is the index `GetFreeIPIndex` would hand out. */
  function Retry(c: Config, s: State, m: Message, free: Option<nat>, firstTry: bool, pick: nat, probes: seq<bool>): Reply
    decreases |probes|, firstTry
  {
    match Choose(c, s.pool, m, free, firstTry, pick)
    case GiveUp => Reply(s, Silent)
    case TryAgain => if firstTry then Retry(c, s, m, free, false, pick, probes) else Reply(s, Silent)
    case Chosen(p, i) =>
      var l := Locked(c, s, m, p, i);
      if probes != [] && probes[0] then
        Retry(c, Conflict(l, m, i), m, Some(0), false, pick, probes[1..])
      else
        Reply(Offered(c, l, m, i), Offer(c.AddressOf(i)))
  }

  function Discover(c: Config, s: State, m: Message, pick: nat, probes: seq<bool>): Reply {
    if c.Static(m.mac) then Reply(s, Offer(c.AddressOf(c.positions[m.mac])))
    else
      match s.LeaseOf(m.mac)
      case None => Retry(c, s, m, None, true, pick, probes)
      case Some(x) =>
        var owner := s.pool.Owner(x);
        if owner == m.mac then
          Reply(s.SetLease(m.mac, x, OFFER_TTL), Offer(c.AddressOf(x)))
        else if owner != FREE_MAC then
          Retry(c, s, m, None, true, pick, probes)
        else
          var d := s.DeleteLease(m.mac);
          if d.pool.CanReserve(x) then
            // The entry is gone, so refreshing it fails and nothing is offered.
            Reply(d.WithPool(d.pool.Reserve(x, m.mac)), Silent)
          else Retry(c, d, m, None, true, pick, probes)
  }

  // ---------- Request and Inform ----------

  /** The requested address when it has four bytes and is not 0.0.0.0. */
  function RequestWants(m: Message): Option<u32> {
    var ip: Option<u32> :=
      match m.requested
      case None => Some(m.ciaddr)
      case Some(b) => if |b| == 4 then Some(BigEndian32(b)) else None;
    if ip == Some(0) then None else ip
  }

  predicate ForAnotherServer(c: Config, m: Message) {
    m.serverId.Some? && |m.serverId.value| == 4 && BigEndian32(m.serverId.value) != c.serverIp
  }

  /** The index of an address of the scope. */
  function IndexOf(c: Config, ip: u32): Option<nat> {
    var leaseNum := IPRange(c.start, ip) - 1;
    if 0 <= leaseNum < c.range then Some(leaseNum) else None
  }

  function Acknowledge(c: Config, s: State, m: Message, ip: u32, i: nat): Reply {
    var ttl := c.leaseDuration + LEASE_GRACE;
    var s1 := s.(ips := s.ips[ip := Cached(m.mac, s.now + ttl)], macs := s.macs[m.mac := Cached(ip, s.now + ttl)])
               .SetLease(m.mac, i, ttl);
    Reply(s1.WithPool(s1.pool.Reserve(i, m.mac)), Ack(ip))
  }

  function Request(c: Config, s: State, m: Message): Reply {
    if ForAnotherServer(c, m) then Reply(s, Silent)
    else
      match RequestWants(m)
      case None => Reply(s, Nak)
      case Some(ip) =>
        match IndexOf(c, ip)
        case None => Reply(s, Nak)
        case Some(leaseNum) =>
          if c.Static(m.mac) then
            if c.positions[m.mac] == leaseNum then Acknowledge(c, s, m, ip, leaseNum) else Reply(s, Nak)
          else
            match s.LeaseOf(m.mac)
            case None => Reply(s, Silent)
            case Some(index) => RequestLeased(c, s, m, ip, index)
  }

  /** A request of a client that has a lease entry. */
  function RequestLeased(c: Config, s: State, m: Message, ip: u32, index: nat): Reply {
    if c.AddressOf(index) == ip then
      var key := KeyOf(c, m);
      if Get(s.requests, key, s.now).Some? then Reply(s, Silent)
      else
        var s1 := s.(requests := s.requests[key := Cached(1, s.now + TRANSACTION_TTL)]);
        if s.pool.Owner(index) == m.mac then Acknowledge(c, s1, m, ip, index) else Reply(s1, Nak)
    else if Get(s.xids, Text(m.xid), s.now) == Some(1) then Reply(s.DeleteLease(m.mac), Nak)
    else Reply(s, Nak)
  }

  // ---------- Release and Decline ----------

  /** `net.IP.To4` of option 50, or the client address; None panics. */
  function ReleaseWants(m: Message): Option<u32> {
    match m.requested
    case None => Some(m.ciaddr)
    case Some(b) =>
      if |b| == 4 then Some(BigEndian32(b))
      else if |b| == 16 && b[..12] == [0, 0, 0, 0, 0, 0, 0, 0, 0, 0, 0xff, 0xff] then Some(BigEndian32(b[12..]))
      else None
  }

  function GiveBack(c: Config, s: State, m: Message, cause: Cause): State {
    var ip := ReleaseWants(m);
    if ip.None? then s
    else
      var leaseNum := IndexOf(c, ip.value);
      if leaseNum.Some? && s.LeaseOf(m.mac) == leaseNum && s.pool.Owner(leaseNum.value) == m.mac then
        var s1 := s.WithPool(s.pool.Reserve(leaseNum.value, FAKE_MAC)).Schedule(leaseNum.value, UNUSABLE_DELAY, cause);
        s1.(deletes := s1.deletes + multiset{m.mac})
      else s
  }

  // ---------- Steps ----------

  function Handle(c: Config, s: State, m: Message, pick: nat, probes: seq<bool>): Reply {
    match m.kind
    case DiscoverKind => Discover(c, s, m, pick, probes)
    case RequestKind => Request(c, s, m)
    case InformKind => Request(c, s, m)
    case ReleaseKind => Reply(GiveBack(c, s, m, ByRelease), Silent)
    case DeclineKind => Reply(GiveBack(c, s, m, ByDecline), Silent)
    case OfferKind => Reply(s, Nak)
    case AckKind => Reply(s, Nak)
    case NakKind => Reply(s, Nak)
  }

  predicate Duplicate(c: Config, s: State, m: Message) {
    Get(s.transactions, KeyOf(c, m), s.now).Some?
  }

  /** The state in which a message that is no duplicate is handled. */
  function Entered(c: Config, s: State, m: Message): State {
    s.(transactions := s.transactions[KeyOf(c, m) := Cached(1, s.now + TRANSACTION_TTL)])
  }

  function Respond(c: Config, s: State, m: Message, pick: nat, probes: seq<bool>): Reply {
    if Duplicate(c, s, m) then Reply(s, Silent) else Handle(c, Entered(c, s, m), m, pick, probes)
  }

  function ApiReleased(c: Config, s: State, mac: Mac): State {
    var ip := Get(s.macs, mac, s.now);
    if ip.Some? && c.inNetwork(ip.value) && s.LeaseOf(mac).Some? then
      s.SetLease(mac, s.LeaseOf(mac).value, API_RELEASE_TTL)
    else s
  }

  function FireTimer(s: State, t: Timer): State {
    s.(timers := s.timers - multiset{t}, pool := s.pool.Free(t.index, s.now))
     .Log(Fired(t, s.now, s.pool.CanFree(t.index)))
  }

  datatype Step =
    | Serve(m: Message, pick: nat, probes: seq<bool>)
    | Evict(mac: Mac)
    | Delete(mac: Mac)
    | Fire(timer: Timer)
    | ApiRelease(mac: Mac)
    | Tick(d: nat)

  function Apply(c: Config, s: State, step: Step): State {
    match step
    case Serve(m, pick, probes) =>
      var r := Respond(c, s, m, pick, probes);
      r.s.Log(Answered(m.mac, r.answer))
    case Evict(mac) => s.DeleteLease(mac)
    case Delete(mac) => s.(deletes := s.deletes - multiset{mac}).DeleteLease(mac)
    case Fire(t) => FireTimer(s, t)
    case ApiRelease(mac) => ApiReleased(c, s, mac)
    case Tick(d) => s.(now := s.now + d)
  }

  /** When a step can happen: messages come from real clients and picks follow the pool's
      policy; only expired entries are evicted and only due timers fire. */
  ghost predicate Enabled(s: State, step: Step) {
    match step
    case Serve(m, pick, _) => ClientMac(m.mac) && (s.pool.free != {} ==> s.pool.MayPick(pick))
    case Evict(mac) => mac in s.leases && s.now > s.leases[mac].expires
    case Delete(mac) => mac in s.deletes
    case Fire(t) => t in s.timers && s.now >= t.due
    case ApiRelease(_) => true
    case Tick(_) => true
  }

  /** The state a scope starts in. */
  function Start(p: PoolState, now: int): State {
    State(p, map[], map[], map[], map[], map[], map[], multiset{}, multiset{}, now, [])
  }

  /** ss are the successive states of a run of steps. */
  ghost predicate Run(c: Config, ss: seq<State>, steps: seq<Step>) {
    && |ss| == |steps| + 1
    && forall n {:trigger steps[n]} :: 0 <= n < |steps| ==> Enabled(ss[n], steps[n]) && ss[n + 1] == Apply(c, ss[n], steps[n])
  }

  /** A run from a configured scope. */
  ghost predicate RunFromStart(c: Config, ss: seq<State>, steps: seq<Step>) {
    && Run(c, ss, steps)
    && c.Valid()
    && ss[0] == Start(ss[0].pool, ss[0].now)
    && ss[0].pool.Valid() && ss[0].pool.capacity == c.range
  }
}
