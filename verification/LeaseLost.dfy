/** A lost address stays lost until one of the steps named here touches it, and exactly some of these
    bring it back. */
module LeaseLost {
  import opened Basics
  import opened Address
  import opened Pool
  import opened Lease
  import opened LeaseEffects
  import opened LeaseAnswers
  import opened LeaseCoverage
  import opened LeaseAlone
  import opened LeaseHeld

  /** Index i is lost: the pool records a client for it, and nothing that would free it is pending. */
  ghost predicate Lost(c: Config, s: State, mac: Mac, i: nat) {
    Untouched(s, i, mac) && ClientMac(mac) && !c.Static(mac)
  }

  /** Its owner's Discover searches, names its address in option 50, and something else is free. */
  predicate Recovers(c: Config, s: State, m: Message, mac: Mac, i: nat) {
    m.mac == mac && Seeks(c, s, m) && s.pool.free != {} && AsksFor(c, m, i)
  }

  /** The search meets a conflict on its first choice and goes on with index 0. */
  predicate LeadsToZero(c: Config, s: State, m: Message, pick: nat, probes: seq<bool>) {
    var r := FirstChoice(c, s.pool, m, pick);
    Seeks(c, s, m) && !ConflictFree(probes) && r.Chosen? && r.pool.free != {}
  }

  /** A client asks for its static position. */
  predicate StaticClaim(c: Config, s: State, m: Message, i: nat) {
    && StaticAt(c, m.mac, i) && !InProgress(c, s, m) && (m.kind == RequestKind || m.kind == InformKind)
    && ForUs(c, m) && WantsIndex(c, m, i)
  }

  /** The steps that touch a lost index. */
  predicate Touches(c: Config, s: State, step: Step, mac: Mac, i: nat) {
    step.Serve? &&
      (|| Recovers(c, s, step.m, mac, i)
       || StaticClaim(c, s, step.m, i)
       || (i == 0 && LeadsToZero(c, s, step.m, step.pick, step.probes)))
  }

  /** Those of them after which the index comes back by itself: its owner has an entry for it, or a second
      conflict, on index 0, has put a timer on it. */
  predicate BringsBack(c: Config, s: State, step: Step, mac: Mac, i: nat) {
    step.Serve? &&
      (|| Recovers(c, s, step.m, mac, i)
       || (&& i == 0 && LeadsToZero(c, s, step.m, step.pick, step.probes)
           && (step.m.mac == mac || !ConflictFree(step.probes[1..]))))
  }

  /** The clients that have i as their static position. */
  function StaticMacs(c: Config, i: nat): set<Mac> {
    set k | k in c.positions && c.positions[k] == i
  }

  // ---------- Searches ----------

  /** The owner's search that names i chooses it. */
  lemma NamedChoice(c: Config, s: State, m: Message, pick: nat, i: nat)
    requires i in s.pool.mac && s.pool.mac[i] == m.mac && s.pool.Valid() && s.pool.free != {} && AsksFor(c, m, i)
    ensures FirstChoice(c, s.pool, m, pick) == Chosen(s.pool, i)
  {
  }

  lemma MissesIff(c: Config, s: State, m: Message, pick: nat, probes: seq<bool>, mac: Mac, i: nat)
    requires GoodArguments(c, s, None, pick) && ClientMac(m.mac) && i in s.pool.mac && s.pool.mac[i] == mac && Seeks(c, s, m)
    ensures Misses(c, s, m, pick, probes, i) <==>
            !(Recovers(c, s, m, mac, i) || (i == 0 && LeadsToZero(c, s, m, pick, probes)))
  {
    FirstChoiceEffect(c, s, m, pick);
    if m.mac == mac && s.pool.free != {} && AsksFor(c, m, i) {
      NamedChoice(c, s, m, pick, i);
    }
    NothingFree(c, s.pool, m, pick);
  }

  lemma NothingFree(c: Config, p: PoolState, m: Message, pick: nat)
    ensures p.free == {} ==> FirstChoice(c, p, m, pick) == GiveUp
  {
  }

  // ---------- Steps that do not touch ----------

  lemma StaticAckIff(c: Config, s: State, m: Message, pick: nat, probes: seq<bool>, i: nat)
    requires PoolReady(c, s) && i < c.range && StaticAt(c, m.mac, i) && ClientMac(m.mac)
    ensures Respond(c, s, m, pick, probes).answer == Ack(c.AddressOf(i)) <==> StaticClaim(c, s, m, i)
  {
    IndexRoundTrip(c.start, c.range, i);
    AckIff(c, s, m, pick, probes, i);
  }

  lemma RespondLost(c: Config, s: State, m: Message, pick: nat, probes: seq<bool>, mac: Mac, i: nat)
    requires PoolReady(c, s) && Enabled(s, Serve(m, pick, probes)) && Lost(c, s, mac, i)
    requires !Touches(c, s, Serve(m, pick, probes), mac, i)
    ensures Untouched(Respond(c, s, m, pick, probes).s, i, mac)
    ensures Mentions(c, Answered(m.mac, Respond(c, s, m, pick, probes).answer), i) ==> StaticAt(c, m.mac, i)
  {
    if StaticAt(c, m.mac, i) {
      StaticAckIff(c, s, m, pick, probes, i);
      StaticRespondUntouched(c, s, m, pick, probes, i, mac);
    } else {
      if Seeks(c, s, m) {
        MissesIff(c, s, m, pick, probes, mac, i);
      }
      RespondAside(c, s, m, pick, probes, i, mac);
      RespondFrame(c, s, m, pick, probes);
    }
  }

  lemma ServeLost(c: Config, s: State, step: Step, mac: Mac, i: nat)
    requires PoolReady(c, s) && Enabled(s, step) && step.Serve? && Lost(c, s, mac, i) && !Touches(c, s, step, mac, i)
    ensures var t := Apply(c, s, step); Lost(c, t, mac, i) && NoNews(c, s.log, t.log, i, StaticMacs(c, i))
  {
    var r := Respond(c, s, step.m, step.pick, step.probes);
    RespondLost(c, s, step.m, step.pick, step.probes, mac, i);
    RespondFrame(c, s, step.m, step.pick, step.probes);
    AnswerNoNews(c, s, r.s, Answered(step.m.mac, r.answer), i, StaticMacs(c, i));
  }

  lemma StepLost(c: Config, s: State, step: Step, mac: Mac, i: nat)
    requires PoolReady(c, s) && Enabled(s, step) && Lost(c, s, mac, i) && !Touches(c, s, step, mac, i)
    ensures var t := Apply(c, s, step); Lost(c, t, mac, i) && NoNews(c, s.log, t.log, i, StaticMacs(c, i))
  {
    if step.Serve? {
      ServeLost(c, s, step, mac, i);
    } else {
      QuietStep(c, s, step, mac, i, StaticMacs(c, i));
      EntryNotNew(c, s, step, mac);
    }
  }

  lemma LostIsUncovered(s: State, mac: Mac, i: nat)
    requires Untouched(s, i, mac)
    ensures !Covered(s, i)
  {
  }

  // ---------- Steps that touch ----------

  lemma LoggedCovered(s: State, e: Event, i: nat)
    ensures Covered(s.Log(e), i) <==> Covered(s, i)
  {
  }

  lemma OfferCovers(c: Config, s: State, m: Message, i: nat)
    requires i in s.pool.mac && s.pool.mac[i] == m.mac
    ensures Covered(Offered(c, Locked(c, s, m, s.pool, i), m, i), i)
  {
  }

  lemma TailTimer(c: Config, s: State, m: Message, pick: nat, probes: seq<bool>, i: nat)
    requires PoolReady(c, s) && ClientMac(m.mac) && TimerOn(s, i)
    ensures TimerOn(Tail(c, s, m, probes).s, i)
  {
    RetryIsTail(c, s, m, pick, probes);
    RetryFrame(c, s, m, Some(0), false, pick, probes);
    TimerKept(s, Tail(c, s, m, probes).s, i);
  }

  lemma ConflictCovers(c: Config, s: State, m: Message, pick: nat, probes: seq<bool>, i: nat)
    requires PoolReady(c, s) && ClientMac(m.mac)
    ensures TimerOn(Tail(c, Conflict(Locked(c, s, m, s.pool, i), m, i), m, probes).s, i)
  {
    var l := Locked(c, s, m, s.pool, i);
    ConflictTimers(l, m, i);
    ConflictFrame(l, m, i);
    TailTimer(c, Conflict(l, m, i), m, pick, probes, i);
  }

  /** The owner's search that names the address finds it, and then its entry or a timer covers it. */
  lemma SearchRecovers(c: Config, s: State, m: Message, pick: nat, probes: seq<bool>, i: nat)
    requires GoodArguments(c, s, None, pick) && ClientMac(m.mac)
    requires i in s.pool.mac && s.pool.mac[i] == m.mac && s.pool.free != {} && AsksFor(c, m, i)
    ensures Covered(Search(c, s, m, FirstChoice(c, s.pool, m, pick), probes).s, i)
  {
    NamedChoice(c, s, m, pick, i);
    OfferCovers(c, s, m, i);
    if !ConflictFree(probes) {
      ConflictCovers(c, s, m, pick, probes[1..], i);
    }
  }

  /** On index 0 after a conflict: an entry of the client, or a timer if the next probe is answered too. */
  lemma TailTouches(c: Config, s: State, m: Message, pick: nat, probes: seq<bool>)
    requires PoolReady(c, s) && ClientMac(m.mac) && m.mac !in s.leases && s.pool.free != {} && !TimerOn(s, 0)
    ensures var t := Tail(c, s, m, probes).s;
            && (TimerOn(t, 0) <==> !ConflictFree(probes))
            && (ConflictFree(probes) ==> HoldsLease(t, m.mac, 0))
  {
    if !ConflictFree(probes) {
      ConflictCovers(c, s, m, pick, probes[1..], 0);
    }
  }

  lemma TailKeeps(c: Config, s: State, m: Message, pick: nat, probes: seq<bool>, mac: Mac)
    requires PoolReady(c, s) && ClientMac(m.mac) && Untouched(s, 0, mac)
    ensures var t := Tail(c, s, m, probes).s;
            && 0 in t.pool.mac && t.pool.mac[0] == mac
            && (m.mac != mac ==> !HoldsLease(t, mac, 0))
  {
    RetryIsTail(c, s, m, pick, probes);
    RetryFrame(c, s, m, Some(0), false, pick, probes);
  }

  lemma TailOutcome(c: Config, s: State, m: Message, pick: nat, probes: seq<bool>, mac: Mac)
    requires PoolReady(c, s) && ClientMac(m.mac) && m.mac !in s.leases && s.pool.free != {} && Untouched(s, 0, mac)
    ensures var t := Tail(c, s, m, probes).s;
            !Untouched(t, 0, mac) && (Covered(t, 0) <==> m.mac == mac || !ConflictFree(probes))
  {
    TailTouches(c, s, m, pick, probes);
    TailKeeps(c, s, m, pick, probes, mac);
  }

  lemma ConflictUntouched(c: Config, s: State, m: Message, p: PoolState, j: nat, mac: Mac)
    requires PoolReady(c, s) && OwnersKept(s.pool, p) && Untouched(s, 0, mac) && 0 < j < c.range
    ensures var k := Conflict(Locked(c, s, m, p, j), m, j); PoolReady(c, k) && Untouched(k, 0, mac)
  {
    PassAside(c, s, m, p, j, 0, mac);
    LockedFrame(c, s, m, p, j);
    ConflictFrame(Locked(c, s, m, p, j), m, j);
  }

  lemma ChosenConflict(c: Config, s: State, m: Message, p: PoolState, j: nat)
    requires p.free != {} && j in p.mac && p.Valid()
    ensures var k := Conflict(Locked(c, s, m, p, j), m, j); k.pool.free != {} && m.mac !in k.leases
  {
  }

  /** A search that gets to index 0 touches it, and covers it for its own client or by a second conflict. */
  lemma SearchTouches(c: Config, s: State, m: Message, pick: nat, probes: seq<bool>, mac: Mac)
    requires GoodArguments(c, s, None, pick) && ClientMac(m.mac) && Untouched(s, 0, mac) && !ConflictFree(probes)
    requires FirstChoice(c, s.pool, m, pick).Chosen? && FirstChoice(c, s.pool, m, pick).pool.free != {}
    requires FirstChoice(c, s.pool, m, pick).index != 0
    ensures var t := Search(c, s, m, FirstChoice(c, s.pool, m, pick), probes).s;
            !Untouched(t, 0, mac) && (Covered(t, 0) <==> m.mac == mac || !ConflictFree(probes[1..]))
  {
    var r := FirstChoice(c, s.pool, m, pick);
    FirstChoiceEffect(c, s, m, pick);
    ConflictUntouched(c, s, m, r.pool, r.index, mac);
    ChosenConflict(c, s, m, r.pool, r.index);
    TailOutcome(c, Conflict(Locked(c, s, m, r.pool, r.index), m, r.index), m, pick, probes[1..], mac);
  }

  lemma SearchStart(c: Config, s: State, m: Message, mac: Mac, i: nat)
    requires Untouched(s, i, mac)
    ensures Untouched(SearchFrom(s, m), i, mac)
  {
    DeleteUntouched(s, m.mac, i, mac);
  }

  /** A search that touches a lost index. */
  lemma SeekTouches(c: Config, s: State, m: Message, pick: nat, probes: seq<bool>, mac: Mac, i: nat)
    requires GoodArguments(c, s, None, pick) && ClientMac(m.mac) && Lost(c, s, mac, i) && Searches(c, s, m)
    requires (m.mac == mac && s.pool.free != {} && AsksFor(c, m, i)) ||
             (i == 0 && !ConflictFree(probes) && FirstChoice(c, s.pool, m, pick).Chosen? && FirstChoice(c, s.pool, m, pick).pool.free != {})
    ensures var t := Discover(c, s, m, pick, probes).s;
            && !Untouched(t, i, mac)
            && (Covered(t, i) <==> m.mac == mac || !ConflictFree(probes[1..]))
  {
    var b := SearchFrom(s, m);
    DiscoverIsRetry(c, s, m, pick, probes);
    RetryIsSearch(c, b, m, pick, probes);
    SearchStart(c, s, m, mac, i);
    if m.mac == mac && AsksFor(c, m, i) {
      SearchRecovers(c, b, m, pick, probes, i);
    } else {
      FirstChoiceEffect(c, b, m, pick);
      SearchTouches(c, b, m, pick, probes, mac);
    }
  }

  /** The ACK of a static client gives it an entry for i, which covers i for nobody. */
  lemma ClaimTouches(c: Config, s: State, m: Message, mac: Mac, i: nat)
    requires PoolReady(c, s) && Lost(c, s, mac, i) && StaticAt(c, m.mac, i) && ForUs(c, m) && WantsIndex(c, m, i)
    ensures !Untouched(Request(c, s, m).s, i, mac) && !Covered(Request(c, s, m).s, i)
  {
    WantedIndex(c, m, i);
    assert HoldsLease(Request(c, s, m).s, m.mac, i);
  }

  lemma RespondTouches(c: Config, s: State, m: Message, pick: nat, probes: seq<bool>, mac: Mac, i: nat)
    requires PoolReady(c, s) && Enabled(s, Serve(m, pick, probes)) && Lost(c, s, mac, i)
    requires Touches(c, s, Serve(m, pick, probes), mac, i)
    ensures var t := Respond(c, s, m, pick, probes).s;
            !Untouched(t, i, mac) && (Covered(t, i) <==> BringsBack(c, s, Serve(m, pick, probes), mac, i))
  {
    var n := Entered(c, s, m);
    if StaticClaim(c, s, m, i) {
      ClaimTouches(c, n, m, mac, i);
    } else {
      SeekTouches(c, n, m, pick, probes, mac, i);
    }
  }

  lemma ServeTouches(c: Config, s: State, step: Step, mac: Mac, i: nat)
    requires PoolReady(c, s) && Enabled(s, step) && Lost(c, s, mac, i) && Touches(c, s, step, mac, i)
    ensures !Lost(c, Apply(c, s, step), mac, i) && (Covered(Apply(c, s, step), i) <==> BringsBack(c, s, step, mac, i))
  {
    var r := Respond(c, s, step.m, step.pick, step.probes);
    RespondTouches(c, s, step.m, step.pick, step.probes, mac, i);
    LoggedCovered(r.s, Answered(step.m.mac, r.answer), i);
  }

  /** Exactly the steps of `Touches` end that an index is lost, and exactly those of `BringsBack` cover it
      again; every other step leaves it lost, does not free it, and tells it to nobody but clients
      that have it as their static position. */
  lemma LostStepIff(c: Config, s: State, step: Step, mac: Mac, i: nat)
    requires PoolReady(c, s) && Enabled(s, step) && Lost(c, s, mac, i)
    ensures Lost(c, Apply(c, s, step), mac, i) <==> !Touches(c, s, step, mac, i)
    ensures Covered(Apply(c, s, step), i) <==> BringsBack(c, s, step, mac, i)
    ensures !Touches(c, s, step, mac, i) ==> NoNews(c, s.log, Apply(c, s, step).log, i, StaticMacs(c, i))
  {
    if Touches(c, s, step, mac, i) {
      ServeTouches(c, s, step, mac, i);
    } else {
      StepLost(c, s, step, mac, i);
      LostIsUncovered(Apply(c, s, step), mac, i);
    }
  }

  /** A lost index stays lost over every run without such a step. */
  lemma {:induction false} LostStaysLost(c: Config, ss: seq<State>, steps: seq<Step>, a: nat, n: nat, mac: Mac, i: nat)
    requires Run(c, ss, steps) && a <= n <= |steps| && PoolReady(c, ss[a]) && Lost(c, ss[a], mac, i)
    requires forall k {:trigger steps[k]} :: a <= k < n ==> !Touches(c, ss[k], steps[k], mac, i)
    ensures Lost(c, ss[n], mac, i) && NoNews(c, ss[a].log, ss[n].log, i, StaticMacs(c, i))
    decreases n
  {
    if a < n {
      RunReadyFrom(c, ss, steps, a, n - 1);
      LostStaysLost(c, ss, steps, a, n - 1, mac, i);
      LostStepIff(c, ss[n - 1], steps[n - 1], mac, i);
      NoNewsTransitive(c, ss[a], ss[n - 1], steps[n - 1], i, StaticMacs(c, i));
    }
  }
}
