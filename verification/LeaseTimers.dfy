/** What a step does beside the pool and the leases: new timers are at least thirty seconds away, marks
    of transactions last a second, and deferred deletes come from the client itself. */
module LeaseTimers {
  import opened Basics
  import opened Pool
  import opened Lease
  import opened LeaseEffects

  /** Every timer of t that s does not have is due thirty seconds from now or later. */
  ghost predicate Late(s: State, t: State) {
    forall x :: x in t.timers ==> x in s.timers || x.due >= s.now + EVICTION_DELAY
  }

  /** From s to t neither marks nor deferred deletes changed, and new timers are late. */
  ghost predicate Calm(s: State, t: State) {
    && t.now == s.now && t.deletes == s.deletes && Late(s, t)
    && t.requests == s.requests && t.transactions == s.transactions
  }

  lemma CalmTransitive(a: State, b: State, d: State)
    requires Calm(a, b) && Calm(b, d)
    ensures Calm(a, d)
  {
  }

  lemma DeleteCalm(s: State, mac: Mac)
    ensures Calm(s, s.DeleteLease(mac))
  {
  }

  lemma LockedCalm(c: Config, s: State, m: Message, p: PoolState, i: nat)
    ensures Calm(s, Locked(c, s, m, p, i)) && Calm(s, Offered(c, Locked(c, s, m, p, i), m, i))
  {
  }

  lemma ConflictCalm(s: State, m: Message, i: nat)
    ensures Calm(s, Conflict(s, m, i))
  {
    var d := s.DeleteLease(m.mac);
    DeleteCalm(s, m.mac);
    assert Calm(d, Conflict(s, m, i));
    CalmTransitive(s, d, Conflict(s, m, i));
  }

  lemma PassCalm(c: Config, s: State, m: Message, p: PoolState, i: nat)
    ensures Calm(s, Conflict(Locked(c, s, m, p, i), m, i))
  {
    var l := Locked(c, s, m, p, i);
    LockedCalm(c, s, m, p, i);
    ConflictCalm(l, m, i);
    CalmTransitive(s, l, Conflict(l, m, i));
  }

  lemma {:induction false} TailCalm(c: Config, s: State, m: Message, probes: seq<bool>)
    ensures Calm(s, Tail(c, s, m, probes).s)
    decreases |probes|
  {
    LockedCalm(c, s, m, s.pool, 0);
    if s.pool.free != {} && !ConflictFree(probes) {
      var k := Conflict(Locked(c, s, m, s.pool, 0), m, 0);
      PassCalm(c, s, m, s.pool, 0);
      TailCalm(c, k, m, probes[1..]);
      CalmTransitive(s, k, Tail(c, k, m, probes[1..]).s);
    }
  }

  lemma SearchCalm(c: Config, s: State, m: Message, r: Choice, probes: seq<bool>)
    ensures Calm(s, Search(c, s, m, r, probes).s)
  {
    if r.Chosen? {
      LockedCalm(c, s, m, r.pool, r.index);
      if !ConflictFree(probes) {
        var k := Conflict(Locked(c, s, m, r.pool, r.index), m, r.index);
        PassCalm(c, s, m, r.pool, r.index);
        TailCalm(c, k, m, probes[1..]);
        CalmTransitive(s, k, Tail(c, k, m, probes[1..]).s);
      }
    }
  }

  lemma DiscoverCalm(c: Config, s: State, m: Message, pick: nat, probes: seq<bool>)
    requires ClientMac(m.mac)
    ensures Calm(s, Discover(c, s, m, pick, probes).s)
  {
    DeleteCalm(s, m.mac);
    if !c.Static(m.mac) {
      if Searches(c, s, m) {
        var b := SearchFrom(s, m);
        DiscoverIsRetry(c, s, m, pick, probes);
        RetryIsSearch(c, b, m, pick, probes);
        SearchCalm(c, b, m, FirstChoice(c, b.pool, m, pick), probes);
        CalmTransitive(s, b, Discover(c, s, m, pick, probes).s);
      } else {
        DiscoverLive(c, s, m, pick, probes);
      }
    }
  }

  /** What every handler does: new timers are late, transaction marks are left alone, request marks get at
      most one of a second, and only the sender gets a deferred delete. */
  ghost predicate Mild(c: Config, s: State, t: State, m: Message) {
    && t.now == s.now && Late(s, t) && t.transactions == s.transactions
    && (t.requests == s.requests || t.requests == s.requests[KeyOf(c, m) := Cached(1, s.now + TRANSACTION_TTL)])
    && (forall k :: k != m.mac && k in t.deletes ==> k in s.deletes)
  }

  lemma AcknowledgeCalm(c: Config, s: State, m: Message, ip: u32, i: nat)
    ensures Calm(s, Acknowledge(c, s, m, ip, i).s)
  {
  }

  function Marked(c: Config, s: State, m: Message): State {
    s.(requests := s.requests[KeyOf(c, m) := Cached(1, s.now + TRANSACTION_TTL)])
  }

  lemma RequestLeasedCases(c: Config, s: State, m: Message, ip: u32, index: nat)
    ensures var t := RequestLeased(c, s, m, ip, index).s;
            t in {s, Marked(c, s, m), Acknowledge(c, Marked(c, s, m), m, ip, index).s, s.DeleteLease(m.mac)}
  {
  }

  lemma MarkedMild(c: Config, s: State, t: State, m: Message)
    requires Calm(Marked(c, s, m), t)
    ensures Mild(c, s, t, m)
  {
  }

  lemma CalmMild(c: Config, s: State, t: State, m: Message)
    requires Calm(s, t)
    ensures Mild(c, s, t, m)
  {
  }

  lemma RequestLeasedMild(c: Config, s: State, m: Message, ip: u32, index: nat)
    ensures Mild(c, s, RequestLeased(c, s, m, ip, index).s, m)
  {
    var n := Marked(c, s, m);
    RequestLeasedCases(c, s, m, ip, index);
    DeleteCalm(s, m.mac);
    CalmMild(c, s, s, m);
    CalmMild(c, s, s.DeleteLease(m.mac), m);
    AcknowledgeCalm(c, n, m, ip, index);
    MarkedMild(c, s, n, m);
    MarkedMild(c, s, Acknowledge(c, n, m, ip, index).s, m);
  }

  lemma RequestMild(c: Config, s: State, m: Message)
    ensures Mild(c, s, Request(c, s, m).s, m)
  {
    var ip := RequestWants(m);
    if ip.Some? && IndexOf(c, ip.value).Some? {
      if c.Static(m.mac) {
        AcknowledgeCalm(c, s, m, ip.value, IndexOf(c, ip.value).value);
      } else if s.LeaseOf(m.mac).Some? {
        RequestLeasedMild(c, s, m, ip.value, s.LeaseOf(m.mac).value);
      }
    }
  }

  lemma GiveBackMild(c: Config, s: State, m: Message, cause: Cause)
    ensures Mild(c, s, GiveBack(c, s, m, cause), m)
  {
  }

  lemma HandleMild(c: Config, s: State, m: Message, pick: nat, probes: seq<bool>)
    requires ClientMac(m.mac)
    ensures Mild(c, s, Handle(c, s, m, pick, probes).s, m)
  {
    match m.kind
    case DiscoverKind => DiscoverCalm(c, s, m, pick, probes);
    case RequestKind => RequestMild(c, s, m);
    case InformKind => RequestMild(c, s, m);
    case ReleaseKind => GiveBackMild(c, s, m, ByRelease);
    case DeclineKind => GiveBackMild(c, s, m, ByDecline);
    case OfferKind =>
    case AckKind =>
    case NakKind =>
  }

  /** No step schedules a timer due in less than thirty seconds. */
  lemma ApplyLate(c: Config, s: State, step: Step)
    requires Enabled(s, step)
    ensures Late(s, Apply(c, s, step)) && s.now <= Apply(c, s, step).now
  {
    match step
    case Serve(m, pick, probes) => HandleMild(c, Entered(c, s, m), m, pick, probes);
    case Evict(mac) => DeleteCalm(s, mac);
    case Delete(mac) => DeleteCalm(s.(deletes := s.deletes - multiset{mac}), mac);
    case Fire(t) =>
    case ApiRelease(_) =>
    case Tick(_) =>
  }

  lemma DeletesAreOwn(c: Config, s: State, step: Step, mac: Mac)
    requires Enabled(s, step) && mac !in s.deletes && !(step.Serve? && step.m.mac == mac)
    ensures mac !in Apply(c, s, step).deletes
  {
    match step
    case Serve(m, pick, probes) => HandleMild(c, Entered(c, s, m), m, pick, probes);
    case Evict(k) => DeleteCalm(s, k);
    case Delete(k) => DeleteCalm(s.(deletes := s.deletes - multiset{k}), k);
    case Fire(t) =>
    case ApiRelease(_) =>
    case Tick(_) =>
  }

  /** All marks of transactions and requests expire within a second. */
  ghost predicate MarksShort(s: State) {
    && (forall k :: k in s.transactions ==> s.transactions[k].expires <= s.now + TRANSACTION_TTL)
    && (forall k :: k in s.requests ==> s.requests[k].expires <= s.now + TRANSACTION_TTL)
  }

  lemma ApplyMarksShort(c: Config, s: State, step: Step)
    requires Enabled(s, step) && MarksShort(s)
    ensures MarksShort(Apply(c, s, step))
  {
    match step
    case Serve(m, pick, probes) => HandleMild(c, Entered(c, s, m), m, pick, probes);
    case Evict(mac) => DeleteCalm(s, mac);
    case Delete(mac) => DeleteCalm(s.(deletes := s.deletes - multiset{mac}), mac);
    case Fire(t) =>
    case ApiRelease(_) =>
    case Tick(_) =>
  }

  /** In every run marks are short. */
  lemma {:induction false} RunMarksShort(c: Config, ss: seq<State>, steps: seq<Step>, n: nat)
    requires RunFromStart(c, ss, steps) && n <= |steps|
    ensures MarksShort(ss[n])
  {
    if n > 0 {
      RunMarksShort(c, ss, steps, n - 1);
      ApplyMarksShort(c, ss[n - 1], steps[n - 1]);
    }
  }
}
