/** Addresses taken by the configuration stay with their owner: who can get them, and in which
    scopes. */
module LeaseReserved {
  import opened Basics
  import opened Address
  import opened Pool
  import opened Lease
  import opened LeaseEffects
  import opened LeaseAnswers
  import opened LeaseAcks
  import opened LeaseAlone
  import opened ScopeConfig

  /** The marker address, or a client with a static assignment. */
  predicate Standing(c: Config, o: Mac) {
    c.Static(o) || !ClientMac(o)
  }

  ghost predicate StandingOwners(c: Config, p: PoolState) {
    forall k :: k in p.mac ==> Standing(c, p.mac[k])
  }

  // ---------- Scopes in which the loop never comes to index 0 ----------

  /** Every index but x belongs to a standing owner, so at most x can be handed out. */
  ghost predicate Narrow(c: Config, s: State, x: nat) {
    x != 0 && forall i: nat :: i < c.range && i != x ==> i in s.pool.mac && Standing(c, s.pool.mac[i])
  }

  /** In a narrow scope the first choice takes the last free index. */
  lemma NarrowMisses(c: Config, s: State, m: Message, pick: nat, probes: seq<bool>, x: nat)
    requires GoodArguments(c, s, None, pick) && Narrow(c, s, x) && ClientMac(m.mac) && !c.Static(m.mac)
    ensures Misses(c, s, m, pick, probes, 0)
  {
    FirstChoiceEffect(c, s, m, pick);
    var r := FirstChoice(c, s.pool, m, pick);
    if r.Chosen? {
      assert forall i :: i in s.pool.free ==> i == x;
      assert r.index == x;
    }
  }

  // ---------- What every run keeps ----------

  /** So far e went only to clients it is statically assigned to, and only in offers. */
  ghost predicate OnlyStaticOffers(c: Config, log: seq<Event>, n: nat, e: nat)
    requires n <= |log|
  {
    forall k :: 0 <= k < n && Mentions(c, log[k], e) ==> StaticAt(c, log[k].mac, e) && log[k].answer.Offer?
  }

  /** A client with e as its static position was ACKed, after nothing but static offers of e. */
  ghost predicate Claimed(c: Config, log: seq<Event>, e: nat) {
    exists k :: 0 <= k < |log| && OnlyStaticOffers(c, log, k, e) &&
                log[k].Answered? && StaticAt(c, log[k].mac, e) && log[k].answer == Ack(c.AddressOf(e))
  }

  ghost predicate Kept(c: Config, s: State, e: nat, o: Mac) {
    Untouched(s, e, o) && OnlyStaticOffers(c, s.log, |s.log|, e)
  }

  lemma ClaimedGrows(c: Config, a: seq<Event>, b: seq<Event>, e: nat)
    requires Claimed(c, a, e) && |a| <= |b| && forall k :: 0 <= k < |a| ==> b[k] == a[k]
    ensures Claimed(c, b, e)
  {
  }

  /** The loop does not come to index e: only index 0 is ever used without being free. */
  ghost predicate OutOfReach(c: Config, s: State, e: nat, x: nat) {
    e != 0 || Narrow(c, s, x)
  }

  lemma RespondKept(c: Config, s: State, m: Message, pick: nat, probes: seq<bool>, e: nat, o: Mac, x: nat)
    requires PoolReady(c, s) && Enabled(s, Serve(m, pick, probes)) && OutOfReach(c, s, e, x) && Standing(c, o)
    requires Untouched(s, e, o)
    ensures var a := Respond(c, s, m, pick, probes).answer;
            && (Mentions(c, Answered(m.mac, a), e) ==> StaticAt(c, m.mac, e))
            && (a != Ack(c.AddressOf(e)) ==> Untouched(Respond(c, s, m, pick, probes).s, e, o))
  {
    if StaticAt(c, m.mac, e) {
      if Respond(c, s, m, pick, probes).answer != Ack(c.AddressOf(e)) {
        StaticRespondUntouched(c, s, m, pick, probes, e, o);
      }
    } else {
      if !c.Static(m.mac) {
        if e != 0 {
          MissesOthers(c, s, m, pick, probes, e);
        } else {
          NarrowMisses(c, s, m, pick, probes, x);
        }
      }
      RespondUntouched(c, s, m, pick, probes, e, o);
    }
  }

  lemma ServeKept(c: Config, s: State, m: Message, pick: nat, probes: seq<bool>, e: nat, o: Mac, x: nat)
    requires PoolReady(c, s) && Enabled(s, Serve(m, pick, probes)) && OutOfReach(c, s, e, x) && Standing(c, o)
    requires Kept(c, s, e, o)
    ensures var t := Apply(c, s, Serve(m, pick, probes)); Kept(c, t, e, o) || Claimed(c, t.log, e)
  {
    var t := Apply(c, s, Serve(m, pick, probes));
    RespondFrame(c, s, m, pick, probes);
    var last := |t.log| - 1;
    assert OnlyStaticOffers(c, t.log, last, e);
    RespondKept(c, s, m, pick, probes, e, o, x);
    assert t.log[last].Answered?;
  }

  lemma ApplyKept(c: Config, s: State, step: Step, e: nat, o: Mac, x: nat)
    requires PoolReady(c, s) && Enabled(s, step) && OutOfReach(c, s, e, x) && Standing(c, o)
    requires Kept(c, s, e, o)
    ensures var t := Apply(c, s, step); Kept(c, t, e, o) || Claimed(c, t.log, e)
  {
    match step
    case Serve(m, pick, probes) => ServeKept(c, s, m, pick, probes, e, o, x);
    case Evict(mac) => DeleteKept(c, s, mac, e, o);
    case Delete(mac) => DeleteKept(c, s.(deletes := s.deletes - multiset{mac}), mac, e, o);
    case Fire(t) => FireKept(c, s, t, e, o);
    case ApiRelease(_) =>
    case Tick(_) =>
  }

  lemma DeleteKept(c: Config, s: State, mac: Mac, e: nat, o: Mac)
    requires Kept(c, s, e, o)
    ensures Kept(c, s.DeleteLease(mac), e, o)
  {
    DeleteUntouched(s, mac, e, o);
  }

  lemma FireKept(c: Config, s: State, t: Timer, e: nat, o: Mac)
    requires Kept(c, s, e, o) && t in s.timers
    ensures Kept(c, FireTimer(s, t), e, o)
  {
  }

  lemma StepKeeps(c: Config, s: State, step: Step, e: nat, o: Mac, x: nat)
    requires PoolReady(c, s) && Enabled(s, step) && Standing(c, o)
    requires Claimed(c, s.log, e) || (Kept(c, s, e, o) && OutOfReach(c, s, e, x))
    ensures var t := Apply(c, s, step); Kept(c, t, e, o) || Claimed(c, t.log, e)
  {
    if Claimed(c, s.log, e) {
      LogOnlyGrows(c, s, step);
      ClaimedGrows(c, s.log, Apply(c, s, step).log, e);
    } else {
      ApplyKept(c, s, step, e, o, x);
    }
  }

  /** In every run, an index other than 0 that the configuration took stays with its owner,
      without lease entry or timer, and is offered to nobody but clients statically assigned to
      it, unless such a client has been ACKed. */
  lemma {:induction false} ConfiguredStays(c: Config, ss: seq<State>, steps: seq<Step>, n: nat, e: nat)
    requires RunFromStart(c, ss, steps) && n <= |steps|
    requires e in ss[0].pool.mac && e != 0 && Standing(c, ss[0].pool.mac[e])
    ensures Kept(c, ss[n], e, ss[0].pool.mac[e]) || Claimed(c, ss[n].log, e)
  {
    if n > 0 {
      ConfiguredStays(c, ss, steps, n - 1, e);
      RunPoolReady(c, ss, steps, n - 1);
      StepKeeps(c, ss[n - 1], steps[n - 1], e, ss[0].pool.mac[e], 1);
    }
  }

  lemma NewAnswers(c: Config, s: State, step: Step, k: nat)
    requires PoolReady(c, s) && Enabled(s, step)
    requires |s.log| <= k < |Apply(c, s, step).log| && Apply(c, s, step).log[k].Answered?
    ensures ClientMac(Apply(c, s, step).log[k].mac) && Apply(c, s, step).log[k].answer != Ack(0)
  {
    match step
    case Serve(m, pick, probes) =>
      RespondFrame(c, s, m, pick, probes);
      NoAckOfZero(c, s, m, pick, probes);
    case Evict(mac) =>
    case Delete(mac) =>
    case Fire(t) =>
    case ApiRelease(_) =>
    case Tick(_) =>
  }

  lemma NoAckOfZero(c: Config, s: State, m: Message, pick: nat, probes: seq<bool>)
    ensures Respond(c, s, m, pick, probes).answer != Ack(0)
  {
    DiscoverEnds(c, Entered(c, s, m), m, pick, probes);
  }

  /** Only real clients are answered, and 0.0.0.0 is never ACKed. */
  lemma {:induction false} OnlyClientsAnswered(c: Config, ss: seq<State>, steps: seq<Step>, n: nat, k: nat)
    requires RunFromStart(c, ss, steps) && n <= |steps|
    requires k < |ss[n].log| && ss[n].log[k].Answered?
    ensures ClientMac(ss[n].log[k].mac) && ss[n].log[k].answer != Ack(0)
  {
    if n > 0 {
      RunPoolReady(c, ss, steps, n - 1);
      LogOnlyGrows(c, ss[n - 1], steps[n - 1]);
      if k < |ss[n - 1].log| {
        OnlyClientsAnswered(c, ss, steps, n - 1, k);
      } else {
        NewAnswers(c, ss[n - 1], steps[n - 1], k);
      }
    }
  }

  /** A claim takes a client with e as its static position, and an address that can be ACKed. */
  lemma NotClaimed(c: Config, ss: seq<State>, steps: seq<Step>, n: nat, e: nat)
    requires RunFromStart(c, ss, steps) && n <= |steps|
    requires !(StaticClientAt(c, e) && c.AddressOf(e) != 0)
    ensures !Claimed(c, ss[n].log, e)
  {
    var log := ss[n].log;
    forall k | 0 <= k < |log| && log[k].Answered?
      ensures !(StaticAt(c, log[k].mac, e) && log[k].answer == Ack(c.AddressOf(e)))
    {
      OnlyClientsAnswered(c, ss, steps, n, k);
    }
  }

  /** Which indexes other than 0 can be free at some time: those free at the start and the static
      positions of clients. */
  ghost predicate Open(c: Config, p: PoolState, e: nat) {
    e != 0 && e < c.range && (e in p.free || StaticClientAt(c, e))
  }

  ghost predicate TwoOpen(c: Config, p: PoolState) {
    exists e: nat, f: nat :: e != f && Open(c, p, e) && Open(c, p, f)
  }

  /** x is the only open index, if there is any. */
  ghost predicate OneOpen(c: Config, p: PoolState, x: nat) {
    x != 0 && forall e: nat :: Open(c, p, e) ==> e == x
  }

  lemma TheOpen(c: Config, p: PoolState) returns (x: nat)
    requires !TwoOpen(c, p)
    ensures OneOpen(c, p, x)
  {
    x := 1;
    if e: nat :| Open(c, p, e) {
      x := e;
    }
  }

  /** With one open index a scope whose index 0 is untouched is narrow throughout. */
  lemma RunNarrow(c: Config, ss: seq<State>, steps: seq<Step>, n: nat, x: nat)
    requires RunFromStart(c, ss, steps) && n <= |steps| && StandingOwners(c, ss[0].pool)
    requires 0 in ss[0].pool.mac && Untouched(ss[n], 0, ss[0].pool.mac[0]) && OneOpen(c, ss[0].pool, x)
    ensures Narrow(c, ss[n], x)
  {
    forall i: nat | i < c.range && i != x
      ensures i in ss[n].pool.mac && Standing(c, ss[n].pool.mac[i])
    {
      if i != 0 {
        assert !Open(c, ss[0].pool, i);
        ConfiguredStays(c, ss, steps, n, i);
        NotClaimed(c, ss, steps, n, i);
      }
    }
  }

  /** With at most one open index, index 0 stays with its owner as the others do. */
  lemma {:induction false} FirstStays(c: Config, ss: seq<State>, steps: seq<Step>, n: nat, x: nat)
    requires RunFromStart(c, ss, steps) && n <= |steps| && StandingOwners(c, ss[0].pool)
    requires 0 in ss[0].pool.mac && OneOpen(c, ss[0].pool, x)
    ensures Kept(c, ss[n], 0, ss[0].pool.mac[0]) || Claimed(c, ss[n].log, 0)
  {
    if n > 0 {
      FirstStays(c, ss, steps, n - 1, x);
      RunPoolReady(c, ss, steps, n - 1);
      if Kept(c, ss[n - 1], 0, ss[0].pool.mac[0]) {
        RunNarrow(c, ss, steps, n - 1, x);
      }
      StepKeeps(c, ss[n - 1], steps[n - 1], 0, ss[0].pool.mac[0], x);
    }
  }

  /** The two cases together: no run comes to index e. */
  ghost predicate Sheltered(c: Config, p: PoolState, e: nat) {
    e != 0 || !TwoOpen(c, p)
  }

  lemma ShelteredStays(c: Config, ss: seq<State>, steps: seq<Step>, n: nat, e: nat)
    requires RunFromStart(c, ss, steps) && n <= |steps| && StandingOwners(c, ss[0].pool)
    requires e in ss[0].pool.mac && Sheltered(c, ss[0].pool, e)
    requires !(StaticClientAt(c, e) && c.AddressOf(e) != 0)
    ensures Kept(c, ss[n], e, ss[0].pool.mac[e])
  {
    NotClaimed(c, ss, steps, n, e);
    if e != 0 {
      ConfiguredStays(c, ss, steps, n, e);
    } else {
      var x := TheOpen(c, ss[0].pool);
      FirstStays(c, ss, steps, n, x);
    }
  }

  // ---------- Reserved addresses are safe ----------

  ghost predicate ServedIn(c: Config, log: seq<Event>, e: nat) {
    exists k :: 0 <= k < |log| && Mentions(c, log[k], e)
  }

  /** No run from s0 ever tells a client that index e is its address. */
  ghost predicate NeverServed(c: Config, s0: State, e: nat) {
    forall ss: seq<State>, steps: seq<Step> ::
      RunFromStart(c, ss, steps) && ss[0] == s0 ==> !ServedIn(c, ss[|steps|].log, e)
  }

  /** No run from s0 ever frees index e. */
  ghost predicate StaysTaken(c: Config, s0: State, e: nat) {
    forall ss: seq<State>, steps: seq<Step> ::
      RunFromStart(c, ss, steps) && ss[0] == s0 ==> e in ss[|steps|].pool.mac
  }

  /** In every run from s0 index e stays with its first owner, without lease entry or timer. */
  ghost predicate StaysPut(c: Config, s0: State, e: nat) {
    forall ss: seq<State>, steps: seq<Step> ::
      RunFromStart(c, ss, steps) && ss[0] == s0 ==> e in s0.pool.mac && Untouched(ss[|steps|], e, s0.pool.mac[e])
  }

  ghost predicate FreshScope(c: Config, s0: State) {
    s0 == Start(s0.pool, s0.now) && PoolReady(c, s0)
  }

  lemma ShelteredIsTaken(c: Config, s0: State, e: nat)
    requires FreshScope(c, s0) && StandingOwners(c, s0.pool) && e in s0.pool.mac && Sheltered(c, s0.pool, e)
    requires !(StaticClientAt(c, e) && c.AddressOf(e) != 0)
    ensures StaysPut(c, s0, e) && StaysTaken(c, s0, e)
  {
    forall ss: seq<State>, steps: seq<Step> | RunFromStart(c, ss, steps) && ss[0] == s0
      ensures Untouched(ss[|steps|], e, s0.pool.mac[e])
    {
      ShelteredStays(c, ss, steps, |steps|, e);
    }
  }

  lemma NotServedIn(c: Config, ss: seq<State>, steps: seq<Step>, e: nat)
    requires RunFromStart(c, ss, steps) && StandingOwners(c, ss[0].pool) && e in ss[0].pool.mac
    requires Sheltered(c, ss[0].pool, e) && !StaticClientAt(c, e)
    ensures !ServedIn(c, ss[|steps|].log, e)
  {
    var log := ss[|steps|].log;
    ShelteredStays(c, ss, steps, |steps|, e);
    forall k | 0 <= k < |log|
      ensures !Mentions(c, log[k], e)
    {
      if Mentions(c, log[k], e) {
        OnlyClientsAnswered(c, ss, steps, |steps|, k);
      }
    }
  }

  lemma ReservedIsSafe(c: Config, s0: State, e: nat)
    requires FreshScope(c, s0) && StandingOwners(c, s0.pool) && e in s0.pool.mac
    requires Sheltered(c, s0.pool, e) && !StaticClientAt(c, e)
    ensures NeverServed(c, s0, e)
  {
    forall ss: seq<State>, steps: seq<Step> | RunFromStart(c, ss, steps) && ss[0] == s0
      ensures !ServedIn(c, ss[|steps|].log, e)
    {
      NotServedIn(c, ss, steps, e);
    }
  }

  /** The scope configured from `ip_reserved` and `ip_assigned`. */
  ghost predicate ConfiguredScope(c: Config, end: u32, algorithm: int, clock: nat -> int,
                                  parts: seq<Part>, pairs: Assignments, s0: State) {
    && c.start <= end && c.range == IPRange(c.start, end) && Ascending(parts)
    && c.positions == Couples(c.start, pairs)
    && s0 == Start(Configured(c.start, c.range, algorithm, clock, parts, pairs), s0.now)
  }

  lemma ConfiguredStanding(c: Config, end: u32, algorithm: int, clock: nat -> int,
                           parts: seq<Part>, pairs: Assignments, s0: State)
    requires ConfiguredScope(c, end, algorithm, clock, parts, pairs, s0)
    ensures FreshScope(c, s0) && StandingOwners(c, s0.pool)
  {
    ConfiguredOwners(c.start, end, algorithm, clock, parts, pairs, 0);
    forall k | k in s0.pool.mac
      ensures Standing(c, s0.pool.mac[k])
    {
      ConfiguredOwners(c.start, end, algorithm, clock, parts, pairs, k);
      ConfiguredKinds(c.start, end, algorithm, clock, parts, pairs, k);
    }
  }

  /** An address listed in `ip_reserved` that is not the static position of a client, and not the
      first of a scope with two open addresses, is never offered, never ACKed, and stays with the fake
      MAC, without lease entry or timer. */
  lemma ExcludedNeverServed(c: Config, end: u32, algorithm: int, clock: nat -> int,
                            parts: seq<Part>, pairs: Assignments, s0: State, e: nat)
    requires ConfiguredScope(c, end, algorithm, clock, parts, pairs, s0)
    requires c.start + e <= end && Reserved(parts, c.start + e)
    requires Sheltered(c, s0.pool, e) && !StaticClientAt(c, e)
    ensures e in s0.pool.mac && s0.pool.mac[e] == FAKE_MAC && NeverServed(c, s0, e) && StaysPut(c, s0, e)
  {
    ConfiguredStanding(c, end, algorithm, clock, parts, pairs, s0);
    ConfiguredOwners(c.start, end, algorithm, clock, parts, pairs, e);
    ConfiguredKinds(c.start, end, algorithm, clock, parts, pairs, e);
    ReservedIsSafe(c, s0, e);
    ShelteredIsTaken(c, s0, e);
  }

  /** In a configured scope a client is offered the address of its last assignment, and its request for that
      address, if it is in the scope and not 0.0.0.0, is ACKed. */
  lemma AssignedIsServed(c: Config, end: u32, algorithm: int, clock: nat -> int, parts: seq<Part>, pairs: Assignments,
                         s0: State, s: State, m: Message, pick: nat, probes: seq<bool>, k: nat)
    requires ConfiguredScope(c, end, algorithm, clock, parts, pairs, s0) && PoolReady(c, s)
    requires LastAssignment(pairs, k, m.mac) && ClientMac(m.mac) && !InProgress(c, s, m)
    ensures m.kind == DiscoverKind ==> Respond(c, s, m, pick, probes).answer == Offer(pairs[k].value.1)
    ensures (m.kind == RequestKind || m.kind == InformKind) && ForUs(c, m) && Names(m, pairs[k].value.1)
            && c.start <= pairs[k].value.1 <= end && pairs[k].value.1 != 0 ==>
              Respond(c, s, m, pick, probes).answer == Ack(pairs[k].value.1)
  {
    CouplesRecordLast(c.start, pairs);
    if m.kind == DiscoverKind {
      StaticDiscoverDecided(c, s, m, pick, probes);
    } else if c.start <= pairs[k].value.1 <= end && pairs[k].value.1 != 0 {
      AckIff(c, s, m, pick, probes, pairs[k].value.1 - c.start);
    }
  }
}
