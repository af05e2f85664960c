/** Exactly which configured addresses are safe, decided by the configuration alone. */
module LeaseReservedIff {
  import opened Basics
  import opened Lease
  import opened LeaseAlone
  import opened LeaseReserved
  import opened LeaseWitness

  lemma ReachServed(c: Config, s0: State, t: State, e: nat)
    requires FreshScope(c, s0) && Leads(c, {}, s0, t) && ServedIn(c, t.log, e)
    ensures !NeverServed(c, s0, e)
  {
    var ss, steps := ReachedRun(c, {}, s0, t);
  }

  lemma ReachFreed(c: Config, s0: State, t: State, e: nat)
    requires FreshScope(c, s0) && Leads(c, {}, s0, t) && e !in t.pool.mac
    ensures !StaysTaken(c, s0, e) && !StaysPut(c, s0, e)
  {
    var ss, steps := ReachedRun(c, {}, s0, t);
  }

  /** The last event of a served message is its answer. */
  lemma ServedLast(c: Config, s: State, m: Message, pick: nat, probes: seq<bool>, e: nat)
    requires Mentions(c, Answered(m.mac, Respond(c, s, m, pick, probes).answer), e)
    ensures ServedIn(c, Apply(c, s, Serve(m, pick, probes)).log, e)
  {
    var log := Apply(c, s, Serve(m, pick, probes)).log;
    assert Mentions(c, log[|log| - 1], e);
  }

  /** A static position is offered to its client. */
  lemma StaticIsOffered(c: Config, s0: State, mac: Mac, e: nat)
    requires FreshScope(c, s0) && ClientMac(mac) && StaticAt(c, mac, e)
    ensures !NeverServed(c, s0, e)
  {
    var m := Message(DiscoverKind, mac, 0, None, 0, None);
    var pick := SomePick(s0.pool);
    ReachStart(c, {}, s0);
    ReachStep(c, {}, s0, s0, Serve(m, pick, []));
    ServedLast(c, s0, m, pick, [], e);
    ReachServed(c, s0, Apply(c, s0, Serve(m, pick, [])), e);
  }

  /** With two open indexes, index 0 is offered after a probe conflict, and freed when that offer's entry
      is evicted. */
  lemma ZeroIsReached(c: Config, s0: State)
    requires FreshScope(c, s0) && 0 in s0.pool.mac && TwoOpen(c, s0.pool)
    ensures !NeverServed(c, s0, 0) && !StaysTaken(c, s0, 0) && !StaysPut(c, s0, 0)
  {
    var s := FreeTwo(c, s0);
    var m, pick, t := ZeroOffered(c, {}, s0, s);
    ServedLast(c, s, m, pick, [true], 0);
    ReachServed(c, s0, t, 0);
    var u := EvictAndFree(c, {}, s0, t, m.mac);
    ReachReady(c, {}, s0, u);
    ReachFreed(c, s0, u, 0);
  }

  lemma StaticIsFreed(c: Config, s0: State, mac: Mac, e: nat)
    requires FreshScope(c, s0) && ClientMac(mac) && StaticAt(c, mac, e) && e in s0.pool.mac && c.AddressOf(e) != 0
    ensures !StaysTaken(c, s0, e) && !StaysPut(c, s0, e)
  {
    ReachStart(c, {}, s0);
    var t := FreeStatic(c, {}, s0, s0, mac, e);
    ReachReady(c, {}, s0, t);
    ReachFreed(c, s0, t, e);
  }

  /** A configured address is never handed out if and only if no client has it as its static position, and
      it is not the first of a scope with two open addresses. */
  lemma ReservedNeverServedIff(c: Config, s0: State, e: nat)
    requires FreshScope(c, s0) && StandingOwners(c, s0.pool) && e in s0.pool.mac
    ensures NeverServed(c, s0, e) <==> Sheltered(c, s0.pool, e) && !StaticClientAt(c, e)
  {
    if StaticClientAt(c, e) {
      var mac :| ClientMac(mac) && StaticAt(c, mac, e);
      StaticIsOffered(c, s0, mac, e);
    } else if Sheltered(c, s0.pool, e) {
      ReservedIsSafe(c, s0, e);
    } else {
      ZeroIsReached(c, s0);
    }
  }

  /** A configured address stays taken in every run if and only if no client has it as its static position,
      unless it is 0.0.0.0, and it is not the first of a scope with two open addresses. Then it also
      stays with its first owner, without lease entry or timer. */
  lemma ReservedStaysIff(c: Config, s0: State, e: nat)
    requires FreshScope(c, s0) && StandingOwners(c, s0.pool) && e in s0.pool.mac
    ensures StaysTaken(c, s0, e) <==>
            Sheltered(c, s0.pool, e) && !(StaticClientAt(c, e) && c.AddressOf(e) != 0)
    ensures StaysPut(c, s0, e) <==> StaysTaken(c, s0, e)
  {
    if StaticClientAt(c, e) && c.AddressOf(e) != 0 {
      var mac :| ClientMac(mac) && StaticAt(c, mac, e);
      StaticIsFreed(c, s0, mac, e);
    } else if Sheltered(c, s0.pool, e) {
      ShelteredIsTaken(c, s0, e);
    } else {
      ZeroIsReached(c, s0);
    }
  }
}
