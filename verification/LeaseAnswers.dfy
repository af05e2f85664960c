/** What each step does, written out on the fields of the message and the state: when a request is ACKed,
    refused or ignored, what a Release or Decline starts, what a Discover chooses and leaves behind.
    Times and addresses are plain numbers here. */
module LeaseAnswers {
  import opened Basics
  import opened Address
  import opened Pool
  import opened Decimal
  import opened Lease
  import opened LeaseEffects

  // ---------- Messages in progress ----------

  /** A message of this client, type and transaction name was served less than a second ago. */
  predicate InProgress(c: Config, s: State, m: Message) {
    var k := Transaction(m.mac, m.kind, c.byteToString(m.xid));
    k in s.transactions && s.now <= s.transactions[k].expires
  }

  /** The state with the message's mark. */
  function Noted(c: Config, s: State, m: Message): State {
    s.(transactions := s.transactions[Transaction(m.mac, m.kind, c.byteToString(m.xid)) := Cached(1, s.now + 1 * SECOND)])
  }

  /** A message in progress changes nothing and is not answered; the others are exactly those handled. */
  lemma IgnoredIff(c: Config, s: State, m: Message, pick: nat, probes: seq<bool>)
    ensures Duplicate(c, s, m) <==> InProgress(c, s, m)
    ensures InProgress(c, s, m) ==> Respond(c, s, m, pick, probes) == Reply(s, Silent)
    ensures !InProgress(c, s, m) ==> Respond(c, s, m, pick, probes) == Handle(c, Noted(c, s, m), m, pick, probes)
  {
  }

  /** Serving a message adds its answer to the history. */
  lemma ServeLogs(c: Config, s: State, m: Message, pick: nat, probes: seq<bool>)
    ensures var r := Respond(c, s, m, pick, probes);
            Apply(c, s, Serve(m, pick, probes)) == r.s.(log := r.s.log + [Answered(m.mac, r.answer)])
  {
  }

  // ---------- Request and Inform ----------

  /** The request names this address: in option 50 of exactly four bytes, or without one in ciaddr. */
  predicate Names(m: Message, ip: u32) {
    match m.requested
    case None => m.ciaddr == ip
    case Some(b) => |b| == 4 && BigEndian32(b) == ip
  }

  /** Option 54 is absent, not of four bytes, or this server. */
  predicate ForUs(c: Config, m: Message) {
    m.serverId.None? || |m.serverId.value| != 4 || BigEndian32(m.serverId.value) == c.serverIp
  }

  /** The request wants the address of index i of the scope, which is not 0.0.0.0. */
  predicate WantsIndex(c: Config, m: Message, i: nat) {
    i < c.range && c.start + i < TWO_32 && c.start + i != 0 && Names(m, c.start + i)
  }

  ghost predicate WantsSome(c: Config, m: Message) {
    exists i: nat :: WantsIndex(c, m, i)
  }

  ghost predicate FreshRequest(c: Config, s: State, m: Message) {
    (m.kind == RequestKind || m.kind == InformKind) && !InProgress(c, s, m)
  }

  /** A request that names another server is ignored, and only its mark is left. */
  lemma OtherServerIgnored(c: Config, s: State, m: Message, pick: nat, probes: seq<bool>)
    requires FreshRequest(c, s, m) && m.serverId.Some? && |m.serverId.value| == 4 && BigEndian32(m.serverId.value) != c.serverIp
    ensures Respond(c, s, m, pick, probes) == Reply(Noted(c, s, m), Silent)
  {
  }

  lemma WantedIndex(c: Config, m: Message, i: nat)
    requires c.Valid() && WantsIndex(c, m, i)
    ensures RequestWants(m) == Some(c.start + i) && IndexOf(c, c.start + i) == Some(i)
    ensures c.AddressOf(i) == c.start + i
  {
    IndexRoundTrip(c.start, c.range, i);
  }

  /** A request for no usable address of the scope is refused. */
  lemma OutsideRefused(c: Config, s: State, m: Message, pick: nat, probes: seq<bool>)
    requires c.Valid() && FreshRequest(c, s, m) && ForUs(c, m) && !WantsSome(c, m)
    ensures Respond(c, s, m, pick, probes) == Reply(Noted(c, s, m), Nak)
  {
    var ip := RequestWants(m);
    if ip.Some? && IndexOf(c, ip.value).Some? {
      assert WantsIndex(c, m, IndexOf(c, ip.value).value);
    }
  }

  /** The state after an ACK of index i: both global caches, the lease entry for the lease time and fifteen
      seconds, and the index taken if it was free. */
  function Acked(c: Config, s: State, m: Message, i: nat): State
    requires c.start + i < TWO_32
  {
    var until := s.now + c.leaseDuration + 15 * SECOND;
    s.(ips := s.ips[(c.start + i) as u32 := Cached(m.mac, until)],
       macs := s.macs[m.mac := Cached((c.start + i) as u32, until)],
       leases := s.leases[m.mac := Cached(i, until)],
       pool := if i in s.pool.free then s.pool.(free := s.pool.free - {i}, mac := s.pool.mac[i := m.mac]) else s.pool)
  }

  lemma AckedState(c: Config, s: State, m: Message, i: nat)
    requires PoolReady(c, s) && i < c.range
    ensures Acknowledge(c, s, m, c.start + i, i) == Reply(Acked(c, s, m, i), Ack(c.start + i))
  {
  }

  /** A client with a static position is ACKed exactly there. */
  lemma StaticRequestDecided(c: Config, s: State, m: Message, pick: nat, probes: seq<bool>, i: nat)
    requires PoolReady(c, s) && FreshRequest(c, s, m) && ForUs(c, m) && WantsIndex(c, m, i) && m.mac in c.positions
    ensures Respond(c, s, m, pick, probes) ==
            if c.positions[m.mac] == i then Reply(Acked(c, Noted(c, s, m), m, i), Ack(c.start + i))
            else Reply(Noted(c, s, m), Nak)
  {
    WantedIndex(c, m, i);
    AckedState(c, Noted(c, s, m), m, i);
  }

  /** The client has a live lease entry for x. */
  predicate LiveEntry(s: State, mac: Mac, x: nat) {
    mac in s.leases && s.leases[mac].value == x && s.now <= s.leases[mac].expires
  }

  ghost predicate NoLiveEntry(s: State, mac: Mac) {
    mac in s.leases ==> s.now > s.leases[mac].expires
  }

  /** Without a live entry a request is ignored. */
  lemma UnknownIgnored(c: Config, s: State, m: Message, pick: nat, probes: seq<bool>, i: nat)
    requires PoolReady(c, s) && FreshRequest(c, s, m) && ForUs(c, m) && WantsIndex(c, m, i) && m.mac !in c.positions
    requires NoLiveEntry(s, m.mac)
    ensures Respond(c, s, m, pick, probes) == Reply(Noted(c, s, m), Silent)
  {
    WantedIndex(c, m, i);
  }

  /** A request of this client, type and transaction name was decided less than a second ago. */
  predicate Decided(c: Config, s: State, m: Message) {
    var k := Transaction(m.mac, m.kind, c.byteToString(m.xid));
    k in s.requests && s.now <= s.requests[k].expires
  }

  function DecidedMark(c: Config, s: State, m: Message): State {
    s.(requests := s.requests[Transaction(m.mac, m.kind, c.byteToString(m.xid)) := Cached(1, s.now + 1 * SECOND)])
  }

  ghost predicate OwnedBy(s: State, i: nat, o: Mac) {
    i in s.pool.mac && s.pool.mac[i] == o
  }

  /** A request for the address of the live entry is decided once, by the pool's record. */
  lemma MatchingDecided(c: Config, s: State, m: Message, pick: nat, probes: seq<bool>, i: nat)
    requires PoolReady(c, s) && FreshRequest(c, s, m) && ForUs(c, m) && WantsIndex(c, m, i) && m.mac !in c.positions
    requires LiveEntry(s, m.mac, i) && ClientMac(m.mac)
    ensures var n := Noted(c, s, m);
            Respond(c, s, m, pick, probes) ==
            if Decided(c, s, m) then Reply(n, Silent)
            else if OwnedBy(s, i, m.mac) then Reply(Acked(c, DecidedMark(c, n, m), m, i), Ack(c.start + i))
            else Reply(DecidedMark(c, n, m), Nak)
  {
    WantedIndex(c, m, i);
    AckedState(c, DecidedMark(c, Noted(c, s, m), m), m, i);
  }

  /** The state after the entry of the client was deleted: thirty seconds later its index is freed. */
  function EntryDropped(s: State, mac: Mac): State
    requires mac in s.leases
  {
    var x := s.leases[mac].value;
    var t := Timer(x, s.now + 30 * SECOND, Evicted);
    s.(leases := s.leases - {mac}, timers := s.timers + multiset{t}, log := s.log + [Dropped(mac, x), Scheduled(t, s.now)])
  }

  lemma DropDecided(s: State, mac: Mac)
    ensures s.DeleteLease(mac) == if mac in s.leases then EntryDropped(s, mac) else s
  {
    if mac in s.leases {
      var x := s.leases[mac].value;
      var t := Timer(x, s.now + 30 * SECOND, Evicted);
      assert s.log + [Dropped(mac, x)] + [Scheduled(t, s.now)] == s.log + [Dropped(mac, x), Scheduled(t, s.now)];
    }
  }

  /** A request for another address than that of the live entry is refused; the entry is deleted exactly if
      the decimal transaction id is marked as offered. */
  lemma MismatchDecided(c: Config, s: State, m: Message, pick: nat, probes: seq<bool>, i: nat, x: nat)
    requires PoolReady(c, s) && FreshRequest(c, s, m) && ForUs(c, m) && WantsIndex(c, m, i) && m.mac !in c.positions
    requires LiveEntry(s, m.mac, x) && (c.start + x) % TWO_32 != c.start + i
    ensures var n, key := Noted(c, s, m), Text(m.xid);
            Respond(c, s, m, pick, probes) ==
            if key in s.xids && s.now <= s.xids[key].expires && s.xids[key].value == 1 then Reply(EntryDropped(n, m.mac), Nak)
            else Reply(n, Nak)
  {
    WantedIndex(c, m, i);
    DropDecided(Noted(c, s, m), m.mac);
  }

  /** The client may have index i: it is its static position, or its live entry is for i, the pool records
      the client, and the request has not been decided yet. */
  ghost predicate Entitled(c: Config, s: State, m: Message, i: nat) {
    if m.mac in c.positions then c.positions[m.mac] == i
    else LiveEntry(s, m.mac, i) && OwnedBy(s, i, m.mac) && !Decided(c, s, m)
  }

  /** A message is ACKed if and only if it is a request or inform not in progress, addressed to this server or
      to none, for an address of the scope the client is entitled to; the ACK is for that address. */
  lemma AckIff(c: Config, s: State, m: Message, pick: nat, probes: seq<bool>, i: nat)
    requires PoolReady(c, s) && ClientMac(m.mac) && i < c.range
    ensures Respond(c, s, m, pick, probes).answer == Ack(c.start + i) <==>
            FreshRequest(c, s, m) && ForUs(c, m) && WantsIndex(c, m, i) && Entitled(c, s, m, i)
  {
    if !FreshRequest(c, s, m) {
      NotRequest(c, s, m, pick, probes);
    } else if !ForUs(c, m) {
      OtherServerIgnored(c, s, m, pick, probes);
    } else if !WantsSome(c, m) {
      OutsideRefused(c, s, m, pick, probes);
    } else {
      var j: nat :| WantsIndex(c, m, j);
      WantedDecided(c, s, m, pick, probes, j);
    }
  }

  lemma NotRequest(c: Config, s: State, m: Message, pick: nat, probes: seq<bool>)
    requires !FreshRequest(c, s, m)
    ensures !Respond(c, s, m, pick, probes).answer.Ack?
  {
    if m.kind == DiscoverKind {
      RetryNoAck(c, Entered(c, s, m), m, pick, probes);
      RetryNoAck(c, Entered(c, s, m).DeleteLease(m.mac), m, pick, probes);
    }
  }

  lemma {:induction false} TailNoAck(c: Config, s: State, m: Message, probes: seq<bool>)
    ensures !Tail(c, s, m, probes).answer.Ack?
    decreases |probes|
  {
    if s.pool.free != {} && !ConflictFree(probes) {
      TailNoAck(c, Conflict(Locked(c, s, m, s.pool, 0), m, 0), m, probes[1..]);
    }
  }

  lemma RetryNoAck(c: Config, s: State, m: Message, pick: nat, probes: seq<bool>)
    ensures !Retry(c, s, m, None, true, pick, probes).answer.Ack?
  {
    RetryIsSearch(c, s, m, pick, probes);
    var r := FirstChoice(c, s.pool, m, pick);
    if r.Chosen? && !ConflictFree(probes) {
      TailNoAck(c, Conflict(Locked(c, s, m, r.pool, r.index), m, r.index), m, probes[1..]);
    }
  }

  lemma WantedDecided(c: Config, s: State, m: Message, pick: nat, probes: seq<bool>, i: nat)
    requires PoolReady(c, s) && ClientMac(m.mac) && FreshRequest(c, s, m) && ForUs(c, m) && WantsIndex(c, m, i)
    ensures var a := Respond(c, s, m, pick, probes).answer;
            (a.Ack? <==> Entitled(c, s, m, i)) && (a.Ack? ==> a == Ack(c.start + i))
  {
    if m.mac in c.positions {
      StaticRequestDecided(c, s, m, pick, probes, i);
    } else if NoLiveEntry(s, m.mac) {
      UnknownIgnored(c, s, m, pick, probes, i);
    } else if LiveEntry(s, m.mac, i) {
      MatchingDecided(c, s, m, pick, probes, i);
    } else {
      OtherEntryNoAck(c, s, m, pick, probes, i, s.leases[m.mac].value);
    }
  }

  lemma OtherEntryNoAck(c: Config, s: State, m: Message, pick: nat, probes: seq<bool>, i: nat, x: nat)
    requires PoolReady(c, s) && ClientMac(m.mac) && FreshRequest(c, s, m) && ForUs(c, m) && WantsIndex(c, m, i)
    requires m.mac !in c.positions && LiveEntry(s, m.mac, x) && x != i
    ensures !Respond(c, s, m, pick, probes).answer.Ack?
  {
    WantedIndex(c, m, i);
    if (c.start + x) % TWO_32 != c.start + i {
      MismatchDecided(c, s, m, pick, probes, i, x);
    } else {
      assert x >= c.range;
    }
  }

  // ---------- Release and Decline ----------

  const MAPPED: seq<u8> := [0, 0, 0, 0, 0, 0, 0, 0, 0, 0, 0xff, 0xff]

  /** Like `Names`, but option 50 may also be an IPv4 address mapped into sixteen bytes. */
  predicate NamesMapped(m: Message, ip: u32) {
    || Names(m, ip)
    || (m.requested.Some? && |m.requested.value| == 16 && m.requested.value[..12] == MAPPED
        && BigEndian32(m.requested.value[12..]) == ip)
  }

  /** The client gives back index i: its live entry is for i and the pool records the client. */
  ghost predicate GivesBack(c: Config, s: State, m: Message, i: nat) {
    && i < c.range && c.start + i < TWO_32 && NamesMapped(m, c.start + i)
    && LiveEntry(s, m.mac, i) && OwnedBy(s, i, m.mac)
  }

  predicate GiveBackKind(kind: Kind) {
    kind == ReleaseKind || kind == DeclineKind
  }

  function BackTimer(s: State, m: Message, i: nat): Timer {
    Timer(i, s.now + 600 * SECOND, if m.kind == ReleaseKind then ByRelease else ByDecline)
  }

  /** The state after giving back i: a free in ten minutes and a deferred delete of the entry, neither leases
      nor pool being changed at once. */
  function GivenBack(s: State, m: Message, i: nat): State {
    var t := BackTimer(s, m, i);
    s.(timers := s.timers + multiset{t}, deletes := s.deletes + multiset{m.mac}, log := s.log + [Scheduled(t, s.now)])
  }

  lemma NamedIndex(c: Config, m: Message, i: nat)
    requires c.Valid() && i < c.range
    ensures NamesMapped(m, c.start + i) <==> ReleaseWants(m).Some? && IndexOf(c, ReleaseWants(m).value) == Some(i)
  {
  }

  /** Release and Decline, if and only if the client gives an index back, schedule its free in ten minutes
      and the delete of the entry; otherwise only the mark is left. Neither is answered. */
  lemma GiveBackIff(c: Config, s: State, m: Message, pick: nat, probes: seq<bool>, i: nat)
    requires PoolReady(c, s) && ClientMac(m.mac) && GiveBackKind(m.kind) && !InProgress(c, s, m)
    ensures var t := Apply(c, s, Serve(m, pick, probes));
            && (GivesBack(c, s, m, i) ==> t == GivenBack(Noted(c, s, m), m, i).Log(Answered(m.mac, Silent)))
            && ((forall j: nat :: !GivesBack(c, s, m, j)) ==> t == Noted(c, s, m).Log(Answered(m.mac, Silent)))
            && (GivesBack(c, s, m, i) <==> t.timers == s.timers + multiset{BackTimer(s, m, i)})
            && (t.deletes == s.deletes + multiset{m.mac} <==> exists j: nat :: GivesBack(c, s, m, j))
  {
    if j: nat :| GivesBack(c, s, m, j) {
      GiveBackDecided(c, s, m, pick, probes, j);
      AddedOne(s.timers, BackTimer(s, m, i), BackTimer(s, m, j));
    } else {
      AddedNone(s.timers, BackTimer(s, m, i));
      AddedNone(s.deletes, m.mac);
      NothingGivenBack(c, s, m, pick, probes);
    }
  }

  lemma GiveBackDecided(c: Config, s: State, m: Message, pick: nat, probes: seq<bool>, i: nat)
    requires PoolReady(c, s) && ClientMac(m.mac) && GiveBackKind(m.kind) && !InProgress(c, s, m) && GivesBack(c, s, m, i)
    ensures Apply(c, s, Serve(m, pick, probes)) == GivenBack(Noted(c, s, m), m, i).Log(Answered(m.mac, Silent))
  {
    BackDecided(c, Noted(c, s, m), m, i);
  }

  lemma BackDecided(c: Config, s: State, m: Message, i: nat)
    requires PoolReady(c, s) && ClientMac(m.mac) && GiveBackKind(m.kind) && GivesBack(c, s, m, i)
    ensures GiveBack(c, s, m, if m.kind == ReleaseKind then ByRelease else ByDecline) == GivenBack(s, m, i)
  {
    NamedIndex(c, m, i);
    assert s.pool.Reserve(i, FAKE_MAC) == s.pool;
  }

  lemma NothingGivenBack(c: Config, s: State, m: Message, pick: nat, probes: seq<bool>)
    requires PoolReady(c, s) && ClientMac(m.mac) && GiveBackKind(m.kind) && !InProgress(c, s, m)
    requires forall j: nat :: !GivesBack(c, s, m, j)
    ensures Apply(c, s, Serve(m, pick, probes)) == Noted(c, s, m).Log(Answered(m.mac, Silent))
  {
    forall j: nat
      ensures !GivesBack(c, Noted(c, s, m), m, j)
    {
      assert !GivesBack(c, s, m, j);
    }
    NotGivenBack(c, Noted(c, s, m), m, if m.kind == ReleaseKind then ByRelease else ByDecline);
  }

  lemma NotGivenBack(c: Config, s: State, m: Message, cause: Cause)
    requires PoolReady(c, s) && ClientMac(m.mac) && forall j: nat :: !GivesBack(c, s, m, j)
    ensures GiveBack(c, s, m, cause) == s
  {
    var ip := ReleaseWants(m);
    if ip.Some? && IndexOf(c, ip.value).Some? {
      NamedIndex(c, m, IndexOf(c, ip.value).value);
      assert !GivesBack(c, s, m, IndexOf(c, ip.value).value);
    }
  }

  lemma AddedOne<T>(a: multiset<T>, x: T, y: T)
    ensures a + multiset{x} == a + multiset{y} <==> x == y
  {
    assert (a + multiset{x})[x] == a[x] + 1;
    if x != y {
      assert (a + multiset{y})[x] == a[x];
    }
  }

  lemma AddedNone<T>(a: multiset<T>, x: T)
    ensures a != a + multiset{x}
  {
    assert (a + multiset{x})[x] == a[x] + 1;
  }

  // ---------- Discover ----------

  predicate FreshDiscover(c: Config, s: State, m: Message) {
    m.kind == DiscoverKind && !InProgress(c, s, m)
  }

  /** A client with a static position is offered its address, and nothing else happens. */
  lemma StaticDiscoverDecided(c: Config, s: State, m: Message, pick: nat, probes: seq<bool>)
    requires FreshDiscover(c, s, m) && m.mac in c.positions
    ensures Respond(c, s, m, pick, probes) == Reply(Noted(c, s, m), Offer((c.start + c.positions[m.mac]) % TWO_32))
  {
  }

  /** A live entry for an index the pool records for the client is offered again, for five more seconds; one
      for a free index is deleted, the index taken, and nothing offered. */
  lemma LiveDiscoverDecided(c: Config, s: State, m: Message, pick: nat, probes: seq<bool>, x: nat)
    requires PoolReady(c, s) && FreshDiscover(c, s, m) && m.mac !in c.positions && ClientMac(m.mac) && LiveEntry(s, m.mac, x)
    requires OwnedBy(s, x, m.mac) || x in s.pool.free
    ensures var n := Noted(c, s, m);
            Respond(c, s, m, pick, probes) ==
            if OwnedBy(s, x, m.mac) then
              Reply(n.(leases := n.leases[m.mac := Cached(x, s.now + 5 * SECOND)]), Offer((c.start + x) % TWO_32))
            else
              Reply(EntryDropped(n, m.mac).(pool := s.pool.(free := s.pool.free - {x}, mac := s.pool.mac[x := m.mac])), Silent)
  {
    DropDecided(Noted(c, s, m), m.mac);
  }

  /** The Discover comes to the retry loop: there is no live entry, or its index is neither the client's nor
      free. */
  ghost predicate Seeking(c: Config, s: State, m: Message) {
    && FreshDiscover(c, s, m) && m.mac !in c.positions
    && (NoLiveEntry(s, m.mac) ||
        (!OwnedBy(s, s.leases[m.mac].value, m.mac) && s.leases[m.mac].value !in s.pool.free))
  }

  /** The loop starts with the entry in place, unless that is for an index outside the pool, or one that is
      assigned to the free marker itself. */
  lemma SeekingDecided(c: Config, s: State, m: Message, pick: nat, probes: seq<bool>)
    requires PoolReady(c, s) && ClientMac(m.mac) && Seeking(c, s, m)
    ensures var n := Noted(c, s, m);
            var b := if !NoLiveEntry(s, m.mac) && (s.leases[m.mac].value >= c.range || OwnedBy(s, s.leases[m.mac].value, FREE_MAC))
                     then EntryDropped(n, m.mac) else n;
            Respond(c, s, m, pick, probes) == Search(c, b, m, FirstChoice(c, s.pool, m, pick), probes)
  {
    var n := Noted(c, s, m);
    DropDecided(n, m.mac);
    DiscoverIsRetry(c, n, m, pick, probes);
    RetryIsSearch(c, SearchFrom(n, m), m, pick, probes);
  }

  function Take(p: PoolState, i: nat, mac: Mac): PoolState {
    p.(free := p.free - {i}, mac := p.mac[i := mac])
  }

  /** The position option 50 asks for, by its first four bytes and modulo 2^32. */
  function AskedPosition(c: Config, b: seq<u8>): nat
    requires |b| >= 4
  {
    (BigEndian32(b[..4]) - c.start) % TWO_32
  }

  /** The first choice: nothing when nothing is free or option 50 is too short; the index asked for if it is the
      client's or free; otherwise the pick of the pool. */
  lemma FirstChoiceDecided(c: Config, p: PoolState, m: Message, pick: nat)
    requires p.Valid() && ClientMac(m.mac)
    ensures FirstChoice(c, p, m, pick) ==
            if p.free == {} || (m.requested.Some? && |m.requested.value| < 4) then GiveUp
            else if m.requested.None? then Chosen(Take(p, pick, m.mac), pick)
            else
              var e := AskedPosition(c, m.requested.value);
              if e in p.mac && p.mac[e] == m.mac then Chosen(p, e)
              else if e in p.free then Chosen(Take(p, e, m.mac), e)
              else Chosen(Take(p, pick, m.mac), pick)
  {
    if m.requested.Some? && |m.requested.value| >= 4 {
      var b := m.requested.value;
      assert b[..4][0] == b[0] && b[..4][1] == b[1] && b[..4][2] == b[2] && b[..4][3] == b[3];
    }
  }

  /** An unanswered probe: the index is offered, with an entry and a transaction mark 1 of five seconds. */
  lemma OfferDecided(c: Config, s: State, m: Message, p: PoolState, i: nat)
    ensures Offered(c, Locked(c, s, m, p, i), m, i) ==
            s.(pool := p, leases := s.leases[m.mac := Cached(i, s.now + 5 * SECOND)],
               xids := s.xids[c.byteToString(m.xid) := Cached(1, s.now + 5 * SECOND)])
  {
  }

  /** An answered probe: the entry is deleted with its thirty second free, the index put aside for the fake
      MAC if it is free, and freed in ten minutes. */
  lemma ConflictDecided(c: Config, s: State, m: Message, p: PoolState, i: nat)
    requires forall j :: j in p.free ==> j < p.capacity
    ensures var evict, probe := Timer(i, s.now + 30 * SECOND, Evicted), Timer(i, s.now + 600 * SECOND, ProbeConflict);
            Conflict(Locked(c, s, m, p, i), m, i) ==
            s.(pool := if i in p.free then Take(p, i, FAKE_MAC) else p,
               leases := s.leases - {m.mac},
               xids := s.xids[c.byteToString(m.xid) := Cached(0, s.now + 5 * SECOND)],
               timers := s.timers + multiset{evict} + multiset{probe},
               log := s.log + [Dropped(m.mac, i), Scheduled(evict, s.now), Scheduled(probe, s.now)])
  {
    var l := Locked(c, s, m, p, i);
    DropDecided(l, m.mac);
    var evict, probe := Timer(i, s.now + 30 * SECOND, Evicted), Timer(i, s.now + 600 * SECOND, ProbeConflict);
    assert l.leases - {m.mac} == s.leases - {m.mac};
    assert s.log + [Dropped(m.mac, i), Scheduled(evict, s.now)] + [Scheduled(probe, s.now)] ==
           s.log + [Dropped(m.mac, i), Scheduled(evict, s.now), Scheduled(probe, s.now)];
  }

  // ---------- Messages of other types, and the steps without a message ----------

  lemma OtherKindsRefused(c: Config, s: State, m: Message, pick: nat, probes: seq<bool>)
    requires (m.kind == OfferKind || m.kind == AckKind || m.kind == NakKind) && !InProgress(c, s, m)
    ensures Respond(c, s, m, pick, probes) == Reply(Noted(c, s, m), Nak)
  {
  }

  lemma DropsDecided(c: Config, s: State, mac: Mac)
    ensures mac in s.leases ==> Apply(c, s, Evict(mac)) == EntryDropped(s, mac)
    ensures var e := s.(deletes := s.deletes - multiset{mac});
            Apply(c, s, Delete(mac)) == if mac in s.leases then EntryDropped(e, mac) else e
  {
    DropDecided(s, mac);
    DropDecided(s.(deletes := s.deletes - multiset{mac}), mac);
  }

  lemma TickDecided(c: Config, s: State, d: nat)
    ensures Apply(c, s, Tick(d)) == s.(now := s.now + d)
  {
  }

  /** A timer frees its index whoever owns it, and stamps the time. */
  lemma FireDecided(c: Config, s: State, t: Timer)
    ensures var taken, p := t.index < s.pool.capacity && t.index !in s.pool.free, s.pool;
            Apply(c, s, Fire(t)) ==
            s.(timers := s.timers - multiset{t}, log := s.log + [Fired(t, s.now, taken)],
               pool := if taken then p.(free := p.free + {t.index}, mac := p.mac - {t.index}, released := p.released[t.index := s.now])
                       else p)
  {
  }

  /** A release through the API shortens a live entry to three seconds, if the client's last ACK is live and in
      the scope's network; otherwise nothing happens. */
  lemma ApiReleaseDecided(c: Config, s: State, mac: Mac)
    ensures Apply(c, s, ApiRelease(mac)) ==
            if mac in s.macs && s.now <= s.macs[mac].expires && c.inNetwork(s.macs[mac].value)
               && mac in s.leases && s.now <= s.leases[mac].expires
            then s.(leases := s.leases[mac := Cached(s.leases[mac].value, s.now + 3 * SECOND)])
            else s
  {
  }
}
