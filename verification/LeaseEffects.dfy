/** What handling one message can change, stated as relations between the state before and
    after. Every result about whole runs rests on these. */
module LeaseEffects {
  import opened Basics
  import opened Address
  import opened Pool
  import opened Lease

  ghost predicate TimerOn(s: State, i: nat) {
    exists t :: t in s.timers && t.index == i
  }

  /** Allocation never removes or changes an existing owner. */
  ghost predicate OwnersKept(p: PoolState, q: PoolState) {
    && q.Valid()
    && q.capacity == p.capacity && q.algorithm == p.algorithm && q.released == p.released
    && (forall i :: i in p.mac ==> i in q.mac && q.mac[i] == p.mac[i])
    && (forall i :: i in q.free ==> i in p.free)
  }

  predicate Quiet(e: Event) {
    e.Dropped? || e.Scheduled?
  }

  ghost predicate LogGrows(a: seq<Event>, b: seq<Event>) {
    && |a| <= |b|
    && (forall k :: 0 <= k < |a| ==> b[k] == a[k])
    && (forall k :: |a| <= k < |b| ==> Quiet(b[k]))
  }

  ghost predicate OtherLeasesKept(s: State, s': State, mac: Mac) {
    forall k :: k != mac ==> ((k in s.leases <==> k in s'.leases) && (k in s.leases ==> s'.leases[k] == s.leases[k]))
  }

  /** The footprint of a message of `mac`: only this client's lease entry, only free indexes,
      only more timers. */
  ghost predicate Frame(s: State, s': State, mac: Mac) {
    && s'.now == s.now
    && OwnersKept(s.pool, s'.pool)
    && LogGrows(s.log, s'.log)
    && OtherLeasesKept(s, s', mac)
    && s.timers <= s'.timers
  }

  lemma FrameTransitive(a: State, b: State, d: State, mac: Mac)
    requires Frame(a, b, mac) && Frame(b, d, mac)
    ensures Frame(a, d, mac)
  {
  }

  ghost predicate PoolReady(c: Config, s: State) {
    s.pool.Valid() && s.pool.capacity == c.range && c.Valid()
  }

  /** `free` and `pick` as the retry loop uses them. */
  ghost predicate GoodArguments(c: Config, s: State, free: Option<nat>, pick: nat) {
    && PoolReady(c, s)
    && (free.Some? ==> free.value == 0)
    && (free.None? && s.pool.free != {} ==> pick in s.pool.free)
  }

  lemma ChooseEffect(c: Config, s: State, m: Message, free: Option<nat>, firstTry: bool, pick: nat)
    requires GoodArguments(c, s, free, pick) && ClientMac(m.mac)
    ensures var r := Choose(c, s.pool, m, free, firstTry, pick);
            && (r.TryAgain? ==> firstTry)
            && (r.Chosen? ==>
                  && OwnersKept(s.pool, r.pool)
                  && r.index < c.range
                  && (free.None? ==> r.pool.Owner(r.index) == m.mac)
                  && (free.Some? || r.index in s.pool.free || s.pool.Owner(r.index) == m.mac)
                  && (forall j :: j in r.pool.mac && j !in s.pool.mac ==> j == r.index && r.pool.mac[j] == m.mac))
            && (r.Chosen? && free.Some? && !firstTry ==> r == Chosen(s.pool, 0))
  {
  }

  // ---------- The retry loop without its search ----------

  /** The choice of the first pass that does not have to try again. */
  function FirstChoice(c: Config, p: PoolState, m: Message, pick: nat): Choice {
    var r := Choose(c, p, m, None, true, pick);
    if r.TryAgain? then Choose(c, p, m, None, false, pick) else r
  }

  /** The first probe is not answered. */
  predicate ConflictFree(probes: seq<bool>) {
    probes == [] || !probes[0]
  }

  /** The loop after a conflict: on index 0, free or not, while anything is free. */
  function Tail(c: Config, s: State, m: Message, probes: seq<bool>): Reply
    decreases |probes|
  {
    if s.pool.free == {} then Reply(s, Silent)
    else
      var l := Locked(c, s, m, s.pool, 0);
      if probes != [] && probes[0] then Tail(c, Conflict(l, m, 0), m, probes[1..])
      else Reply(Offered(c, l, m, 0), Offer(c.AddressOf(0)))
  }

  /** The loop from its first choice on. */
  function Search(c: Config, s: State, m: Message, r: Choice, probes: seq<bool>): Reply {
    if !r.Chosen? then Reply(s, Silent)
    else
      var l := Locked(c, s, m, r.pool, r.index);
      if probes != [] && probes[0] then Tail(c, Conflict(l, m, r.index), m, probes[1..])
      else Reply(Offered(c, l, m, r.index), Offer(c.AddressOf(r.index)))
  }

  lemma {:induction false} RetryIsTail(c: Config, s: State, m: Message, pick: nat, probes: seq<bool>)
    ensures Retry(c, s, m, Some(0), false, pick, probes) == Tail(c, s, m, probes)
    decreases |probes|
  {
    if s.pool.free != {} {
      assert Choose(c, s.pool, m, Some(0), false, pick) == Chosen(s.pool, 0);
      if probes != [] && probes[0] {
        RetryIsTail(c, Conflict(Locked(c, s, m, s.pool, 0), m, 0), m, pick, probes[1..]);
      }
    }
  }

  lemma RetryFrom(c: Config, s: State, m: Message, firstTry: bool, pick: nat, probes: seq<bool>)
    requires !Choose(c, s.pool, m, None, firstTry, pick).TryAgain? || !firstTry
    ensures Retry(c, s, m, None, firstTry, pick, probes) == Search(c, s, m, Choose(c, s.pool, m, None, firstTry, pick), probes)
  {
    var r := Choose(c, s.pool, m, None, firstTry, pick);
    if r.Chosen? && probes != [] && probes[0] {
      RetryIsTail(c, Conflict(Locked(c, s, m, r.pool, r.index), m, r.index), m, pick, probes[1..]);
    }
  }

  /** The loop makes one choice; after a conflict on it nothing but index 0 is tried. */
  lemma RetryIsSearch(c: Config, s: State, m: Message, pick: nat, probes: seq<bool>)
    ensures Retry(c, s, m, None, true, pick, probes) == Search(c, s, m, FirstChoice(c, s.pool, m, pick), probes)
  {
    var r := Choose(c, s.pool, m, None, true, pick);
    RetryFrom(c, s, m, !r.TryAgain?, pick, probes);
  }

  /** The first choice is the client's afterwards; it was free, or the client's already and asked for. */
  lemma FirstChoiceEffect(c: Config, s: State, m: Message, pick: nat)
    requires GoodArguments(c, s, None, pick) && ClientMac(m.mac)
    ensures var r := FirstChoice(c, s.pool, m, pick);
            r.Chosen? ==>
              && OwnersKept(s.pool, r.pool) && r.index < c.range && r.pool.Owner(r.index) == m.mac
              && (r.index in s.pool.free || (s.pool.Owner(r.index) == m.mac && AsksFor(c, m, r.index)))
  {
    ChooseEffect(c, s, m, None, true, pick);
    ChooseEffect(c, s, m, None, false, pick);
  }

  /** The Discover comes to the retry loop. */
  predicate Searches(c: Config, s: State, m: Message) {
    !c.Static(m.mac) &&
      match s.LeaseOf(m.mac)
      case None => true
      case Some(x) => s.pool.Owner(x) != m.mac && !s.pool.CanReserve(x)
  }

  /** The state in which the retry loop starts: an entry for an index that is reported free but cannot be
      taken is dropped first. */
  function SearchFrom(s: State, m: Message): State {
    if s.LeaseOf(m.mac).Some? && s.pool.Owner(s.LeaseOf(m.mac).value) == FREE_MAC then s.DeleteLease(m.mac) else s
  }

  lemma DiscoverIsRetry(c: Config, s: State, m: Message, pick: nat, probes: seq<bool>)
    requires Searches(c, s, m) && ClientMac(m.mac)
    ensures Discover(c, s, m, pick, probes) == Retry(c, SearchFrom(s, m), m, None, true, pick, probes)
    ensures SearchFrom(s, m).pool == s.pool && SearchFrom(s, m).now == s.now
  {
  }

  /** A Discover that does not search refreshes its live entry, or takes its index back without offering. */
  lemma DiscoverLive(c: Config, s: State, m: Message, pick: nat, probes: seq<bool>)
    requires !c.Static(m.mac) && !Searches(c, s, m) && ClientMac(m.mac)
    ensures s.LeaseOf(m.mac).Some?
    ensures var x := s.LeaseOf(m.mac).value;
            Discover(c, s, m, pick, probes) ==
            if s.pool.Owner(x) == m.mac then Reply(s.SetLease(m.mac, x, OFFER_TTL), Offer(c.AddressOf(x)))
            else Reply(s.DeleteLease(m.mac).WithPool(s.pool.Reserve(x, m.mac)), Silent)
  {
  }

  /** Option 50 of the Discover names index i. */
  predicate AsksFor(c: Config, m: Message, i: nat) {
    DiscoverWants(m).Wants? && Position(c.start, DiscoverWants(m).ip) == i
  }

  // ---------- The frame of every handler ----------

  lemma DeleteFrame(s: State, mac: Mac)
    requires s.pool.Valid()
    ensures Frame(s, s.DeleteLease(mac), mac)
  {
  }

  lemma LockedFrame(c: Config, s: State, m: Message, p: PoolState, i: nat)
    requires OwnersKept(s.pool, p)
    ensures Frame(s, Locked(c, s, m, p, i), m.mac)
  {
  }

  lemma ConflictFrame(s: State, m: Message, i: nat)
    requires s.pool.Valid()
    ensures Frame(s, Conflict(s, m, i), m.mac)
  {
    var d := s.DeleteLease(m.mac);
    DeleteFrame(s, m.mac);
    assert OwnersKept(d.pool, d.pool.Reserve(i, FAKE_MAC));
    assert Frame(d, Conflict(s, m, i), m.mac);
    FrameTransitive(s, d, Conflict(s, m, i), m.mac);
  }

  lemma OfferedFrame(c: Config, s: State, m: Message, i: nat)
    requires s.pool.Valid()
    ensures Frame(s, Offered(c, s, m, i), m.mac)
  {
  }

  lemma {:induction false} RetryFrame(c: Config, s: State, m: Message, free: Option<nat>, firstTry: bool, pick: nat, probes: seq<bool>)
    requires GoodArguments(c, s, free, pick) && ClientMac(m.mac)
    ensures Frame(s, Retry(c, s, m, free, firstTry, pick, probes).s, m.mac)
    decreases |probes|, firstTry
  {
    ChooseEffect(c, s, m, free, firstTry, pick);
    match Choose(c, s.pool, m, free, firstTry, pick)
    case GiveUp =>
    case TryAgain => RetryFrame(c, s, m, free, false, pick, probes);
    case Chosen(p, i) =>
      var l := Locked(c, s, m, p, i);
      LockedFrame(c, s, m, p, i);
      if probes != [] && probes[0] {
        var k := Conflict(l, m, i);
        ConflictFrame(l, m, i);
        FrameTransitive(s, l, k, m.mac);
        RetryFrame(c, k, m, Some(0), false, pick, probes[1..]);
        FrameTransitive(s, k, Retry(c, k, m, Some(0), false, pick, probes[1..]).s, m.mac);
      } else {
        OfferedFrame(c, l, m, i);
        FrameTransitive(s, l, Offered(c, l, m, i), m.mac);
      }
  }

  lemma FoundFreeFrame(s: State, m: Message, x: nat)
    requires s.pool.Valid()
    ensures Frame(s, s.DeleteLease(m.mac).WithPool(s.pool.Reserve(x, m.mac)), m.mac)
  {
  }

  lemma DiscoverFrame(c: Config, s: State, m: Message, pick: nat, probes: seq<bool>)
    requires GoodArguments(c, s, None, pick) && ClientMac(m.mac)
    ensures Frame(s, Discover(c, s, m, pick, probes).s, m.mac)
  {
    if !c.Static(m.mac) {
      match s.LeaseOf(m.mac)
      case None => RetryFrame(c, s, m, None, true, pick, probes);
      case Some(x) =>
        var owner, d := s.pool.Owner(x), s.DeleteLease(m.mac);
        if owner == m.mac {
        } else if owner != FREE_MAC {
          RetryFrame(c, s, m, None, true, pick, probes);
        } else if d.pool.CanReserve(x) {
          FoundFreeFrame(s, m, x);
        } else {
          DeleteFrame(s, m.mac);
          RetryFrame(c, d, m, None, true, pick, probes);
          FrameTransitive(s, d, Retry(c, d, m, None, true, pick, probes).s, m.mac);
        }
    }
  }

  lemma AcknowledgeFrame(c: Config, s: State, m: Message, ip: u32, i: nat)
    requires s.pool.Valid()
    ensures Frame(s, Acknowledge(c, s, m, ip, i).s, m.mac)
  {
  }

  lemma RequestFrame(c: Config, s: State, m: Message)
    requires PoolReady(c, s)
    ensures Frame(s, Request(c, s, m).s, m.mac)
  {
    var ip, i := RequestShape(c, s, m);
    DeleteFrame(s, m.mac);
    AcknowledgeFrame(c, s.(requests := Request(c, s, m).s.requests), m, ip, i);
  }

  lemma GiveBackFrame(c: Config, s: State, m: Message, cause: Cause)
    requires s.pool.Valid()
    ensures Frame(s, GiveBack(c, s, m, cause), m.mac)
  {
  }

  /** Giving an address back changes neither the pool nor the lease cache at once. */
  lemma GiveBackKeeps(c: Config, s: State, m: Message, cause: Cause)
    requires ClientMac(m.mac)
    ensures GiveBack(c, s, m, cause).leases == s.leases && GiveBack(c, s, m, cause).pool == s.pool
  {
  }

  lemma HandleFrame(c: Config, s: State, m: Message, pick: nat, probes: seq<bool>)
    requires GoodArguments(c, s, None, pick) && ClientMac(m.mac)
    ensures Frame(s, Handle(c, s, m, pick, probes).s, m.mac)
  {
    match m.kind
    case DiscoverKind => DiscoverFrame(c, s, m, pick, probes);
    case RequestKind => RequestFrame(c, s, m);
    case InformKind => RequestFrame(c, s, m);
    case ReleaseKind => GiveBackFrame(c, s, m, ByRelease);
    case DeclineKind => GiveBackFrame(c, s, m, ByDecline);
    case OfferKind =>
    case AckKind =>
    case NakKind =>
  }

  /** Whatever the message and the probes, serving it stays within the client's footprint. */
  lemma RespondFrame(c: Config, s: State, m: Message, pick: nat, probes: seq<bool>)
    requires GoodArguments(c, s, None, pick) && ClientMac(m.mac)
    ensures Frame(s, Respond(c, s, m, pick, probes).s, m.mac)
  {
    if !Duplicate(c, s, m) {
      HandleFrame(c, Entered(c, s, m), m, pick, probes);
    }
  }

  // ---------- The shape of a request's outcome ----------

  /** The two ways to earn an ACK: a static client asking for its position, or a client asking for
      the address of a live lease entry whose index it owns. */
  ghost predicate Earned(c: Config, s: State, m: Message, ip: u32, i: nat) {
    && c.AddressOf(i) == ip
    && if c.Static(m.mac) then c.positions[m.mac] == i && i < c.range
       else s.LeaseOf(m.mac) == Some(i) && s.pool.Owner(i) == m.mac
  }

  ghost predicate Refused(s: State, r: Reply, mac: Mac) {
    (r.answer == Silent || r.answer == Nak) && (r.s == s.(requests := r.s.requests) || r.s == s.DeleteLease(mac))
  }

  ghost predicate Granted(c: Config, s: State, m: Message, r: Reply, ip: u32, i: nat) {
    Earned(c, s, m, ip, i) && r == Acknowledge(c, s.(requests := r.s.requests), m, ip, i)
  }

  lemma RequestLeasedShape(c: Config, s: State, m: Message, ip: u32, i: nat)
    requires !c.Static(m.mac) && s.LeaseOf(m.mac) == Some(i)
    ensures Refused(s, RequestLeased(c, s, m, ip, i), m.mac) || Granted(c, s, m, RequestLeased(c, s, m, ip, i), ip, i)
  {
  }

  /** A request changes nothing but its transaction mark, drops the client's entry, or is an
      earned ACK. */
  lemma RequestShape(c: Config, s: State, m: Message) returns (ip: u32, i: nat)
    requires c.Valid()
    ensures Refused(s, Request(c, s, m), m.mac) || Granted(c, s, m, Request(c, s, m), ip, i)
  {
    ip, i := 0, 0;
    var want := RequestWants(m);
    if want.Some? && IndexOf(c, want.value).Some? {
      ip, i := want.value, IndexOf(c, want.value).value;
      if c.Static(m.mac) {
        IndexArithmetic(c.start, c.start + c.range - 1, ip);
      } else if s.LeaseOf(m.mac).Some? {
        i := s.LeaseOf(m.mac).value;
        RequestLeasedShape(c, s, m, ip, i);
      }
    }
  }

  // ---------- Runs ----------

  lemma LogOnlyGrows(c: Config, s: State, step: Step)
    requires PoolReady(c, s) && Enabled(s, step)
    ensures |s.log| <= |Apply(c, s, step).log|
    ensures forall k :: 0 <= k < |s.log| ==> Apply(c, s, step).log[k] == s.log[k]
  {
    match step
    case Serve(m, pick, probes) => RespondFrame(c, s, m, pick, probes);
    case Evict(mac) =>
    case Delete(mac) =>
    case Fire(t) =>
    case ApiRelease(_) =>
    case Tick(_) =>
  }

  lemma ApplyPoolReady(c: Config, s: State, step: Step)
    requires PoolReady(c, s) && Enabled(s, step)
    ensures PoolReady(c, Apply(c, s, step))
  {
    if step.Serve? {
      RespondFrame(c, s, step.m, step.pick, step.probes);
    }
  }

  lemma {:induction false} RunReadyFrom(c: Config, ss: seq<State>, steps: seq<Step>, a: nat, n: nat)
    requires Run(c, ss, steps) && a <= n <= |steps| && PoolReady(c, ss[a])
    ensures PoolReady(c, ss[n])
    decreases n
  {
    if a < n {
      RunReadyFrom(c, ss, steps, a, n - 1);
      ApplyPoolReady(c, ss[n - 1], steps[n - 1]);
    }
  }

  /** The pool's partition holds throughout every run of the scope. */
  lemma RunPoolReady(c: Config, ss: seq<State>, steps: seq<Step>, n: nat)
    requires RunFromStart(c, ss, steps) && n <= |steps|
    ensures PoolReady(c, ss[n])
  {
    RunReadyFrom(c, ss, steps, 0, n);
  }
}
