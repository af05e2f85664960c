/** Bookkeeping of the delayed frees: every free comes from a timer that was scheduled, none is
    lost, none fires twice, none fires early. */
module LeaseBooks {
  import opened Basics
  import opened Pool
  import opened Lease
  import opened LeaseEffects

  function ScheduledIn(log: seq<Event>): multiset<Timer> {
    if log == [] then multiset{}
    else
      var e := log[|log| - 1];
      ScheduledIn(log[..|log| - 1]) + if e.Scheduled? then multiset{e.timer} else multiset{}
  }

  function FiredIn(log: seq<Event>): multiset<Timer> {
    if log == [] then multiset{}
    else
      var e := log[|log| - 1];
      FiredIn(log[..|log| - 1]) + if e.Fired? then multiset{e.timer} else multiset{}
  }

  function DelayOf(cause: Cause): int {
    if cause == Evicted then EVICTION_DELAY else UNUSABLE_DELAY
  }

  /** Timers are due after the delay of their cause and fire no earlier. */
  predicate OnTime(e: Event) {
    match e
    case Scheduled(t, at) => t.due == at + DelayOf(t.cause)
    case Fired(t, at, _) => t.due <= at
    case Answered(_, _) => true
    case Dropped(_, _) => true
  }

  /** A scheduling of t precedes position f. */
  ghost predicate ScheduledBefore(log: seq<Event>, f: nat, t: Timer) {
    exists g :: 0 <= g < f && g < |log| && log[g].Scheduled? && log[g].timer == t
  }

  /** The books balance: pending plus fired timers are the scheduled ones. */
  ghost predicate Books(timers: multiset<Timer>, log: seq<Event>) {
    && timers + FiredIn(log) == ScheduledIn(log)
    && (forall f :: 0 <= f < |log| ==> OnTime(log[f]))
    && (forall f :: 0 <= f < |log| && log[f].Fired? ==> ScheduledBefore(log, f, log[f].timer))
  }

  lemma TotalsAppend(log: seq<Event>, e: Event)
    ensures ScheduledIn(log + [e]) == ScheduledIn(log) + if e.Scheduled? then multiset{e.timer} else multiset{}
    ensures FiredIn(log + [e]) == FiredIn(log) + if e.Fired? then multiset{e.timer} else multiset{}
  {
    assert (log + [e])[..|log|] == log;
  }

  lemma ScheduledBeforeAppend(log: seq<Event>, e: Event, f: nat, t: Timer)
    requires f <= |log| && ScheduledBefore(log, f, t)
    ensures ScheduledBefore(log + [e], f, t)
  {
    var g :| 0 <= g < f && g < |log| && log[g].Scheduled? && log[g].timer == t;
    assert (log + [e])[g] == log[g];
  }

  /** A pending timer was scheduled. */
  lemma PendingScheduled(timers: multiset<Timer>, log: seq<Event>, t: Timer)
    requires timers + FiredIn(log) == ScheduledIn(log) && t in timers
    ensures ScheduledBefore(log, |log|, t)
  {
    assert t in ScheduledIn(log);
    var g := ScheduledOccurs(log, t);
  }

  lemma BooksAppend(timers: multiset<Timer>, log: seq<Event>, e: Event, timers': multiset<Timer>)
    requires Books(timers, log) && OnTime(e)
    requires e.Fired? ==> e.timer in timers
    requires timers' == if e.Scheduled? then timers + multiset{e.timer}
                        else if e.Fired? then timers - multiset{e.timer} else timers
    ensures Books(timers', log + [e])
  {
    TotalsAppend(log, e);
    forall f | 0 <= f < |log + [e]| && (log + [e])[f].Fired?
      ensures ScheduledBefore(log + [e], f, (log + [e])[f].timer)
    {
      if f == |log| {
        PendingScheduled(timers, log, e.timer);
      }
      ScheduledBeforeAppend(log, e, f, (log + [e])[f].timer);
    }
  }

  lemma {:induction false} ScheduledOccurs(log: seq<Event>, t: Timer) returns (g: nat)
    requires t in ScheduledIn(log)
    ensures g < |log| && log[g].Scheduled? && log[g].timer == t
  {
    var n := |log| - 1;
    if log[n].Scheduled? && log[n].timer == t {
      g := n;
    } else {
      g := ScheduledOccurs(log[..n], t);
    }
  }

  ghost predicate Balanced(s: State) {
    Books(s.timers, s.log)
  }

  /** Timers and history are those of the other state. */
  ghost predicate SameBooks(s: State, t: State) {
    t.timers == s.timers && t.log == s.log
  }

  lemma SameBalanced(s: State, t: State)
    requires Balanced(s) && SameBooks(s, t)
    ensures Balanced(t)
  {
  }

  lemma ScheduleBalanced(s: State, i: nat, cause: Cause)
    requires Balanced(s)
    ensures Balanced(s.Schedule(i, DelayOf(cause), cause))
  {
    var t := Timer(i, s.now + DelayOf(cause), cause);
    var e := Scheduled(t, s.now);
    var after := s.Schedule(i, DelayOf(cause), cause);
    BooksAppend(s.timers, s.log, e, s.timers + multiset{t});
    assert after.timers == s.timers + multiset{t} && after.log == s.log + [e];
  }

  lemma DeleteBalanced(s: State, mac: Mac)
    requires Balanced(s)
    ensures Balanced(s.DeleteLease(mac))
  {
    if mac in s.leases {
      var i := s.leases[mac].value;
      BooksAppend(s.timers, s.log, Dropped(mac, i), s.timers);
      ScheduleBalanced(s.(leases := s.leases - {mac}, log := s.log + [Dropped(mac, i)]), i, Evicted);
    }
  }

  lemma ConflictBalanced(s: State, m: Message, i: nat)
    requires Balanced(s)
    ensures Balanced(Conflict(s, m, i))
  {
    DeleteBalanced(s, m.mac);
    var d := s.DeleteLease(m.mac);
    ScheduleBalanced(d.WithPool(d.pool.Reserve(i, FAKE_MAC)), i, ProbeConflict);
  }

  lemma LockedBalanced(c: Config, s: State, m: Message, p: PoolState, i: nat)
    requires Balanced(s)
    ensures Balanced(Offered(c, Locked(c, s, m, p, i), m, i))
    ensures Balanced(Conflict(Locked(c, s, m, p, i), m, i))
  {
    ConflictBalanced(Locked(c, s, m, p, i), m, i);
  }

  lemma {:induction false} RetryBalanced(c: Config, s: State, m: Message, free: Option<nat>, firstTry: bool, pick: nat, probes: seq<bool>)
    requires Balanced(s)
    ensures Balanced(Retry(c, s, m, free, firstTry, pick, probes).s)
    decreases |probes|, firstTry
  {
    match Choose(c, s.pool, m, free, firstTry, pick)
    case GiveUp =>
    case TryAgain =>
      if firstTry {
        RetryBalanced(c, s, m, free, false, pick, probes);
      }
    case Chosen(p, i) =>
      LockedBalanced(c, s, m, p, i);
      if probes != [] && probes[0] {
        RetryBalanced(c, Conflict(Locked(c, s, m, p, i), m, i), m, Some(0), false, pick, probes[1..]);
      }
  }

  /** The timers and the history a Discover leaves are those of the retry loop, or those it found, or those
      after dropping the entry. */
  lemma DiscoverBooks(c: Config, s: State, m: Message, pick: nat, probes: seq<bool>)
    ensures var t, d := Discover(c, s, m, pick, probes).s, s.DeleteLease(m.mac);
            || SameBooks(s, t) || SameBooks(d, t)
            || t == Retry(c, s, m, None, true, pick, probes).s || t == Retry(c, d, m, None, true, pick, probes).s
  {
  }

  lemma DiscoverBalanced(c: Config, s: State, m: Message, pick: nat, probes: seq<bool>)
    requires Balanced(s)
    ensures Balanced(Discover(c, s, m, pick, probes).s)
  {
    var t, d := Discover(c, s, m, pick, probes).s, s.DeleteLease(m.mac);
    DeleteBalanced(s, m.mac);
    RetryBalanced(c, s, m, None, true, pick, probes);
    RetryBalanced(c, d, m, None, true, pick, probes);
    DiscoverBooks(c, s, m, pick, probes);
    if SameBooks(s, t) {
      SameBalanced(s, t);
    } else if SameBooks(d, t) {
      SameBalanced(d, t);
    }
  }

  lemma RequestBooks(c: Config, s: State, m: Message)
    requires c.Valid()
    ensures SameBooks(s, Request(c, s, m).s) || SameBooks(s.DeleteLease(m.mac), Request(c, s, m).s)
  {
    var _, _ := RequestShape(c, s, m);
  }

  lemma RequestBalanced(c: Config, s: State, m: Message)
    requires Balanced(s) && c.Valid()
    ensures Balanced(Request(c, s, m).s)
  {
    RequestBooks(c, s, m);
    DeleteBalanced(s, m.mac);
    if SameBooks(s, Request(c, s, m).s) {
      SameBalanced(s, Request(c, s, m).s);
    } else {
      SameBalanced(s.DeleteLease(m.mac), Request(c, s, m).s);
    }
  }

  lemma HandleBalanced(c: Config, s: State, m: Message, pick: nat, probes: seq<bool>)
    requires Balanced(s) && c.Valid()
    ensures Balanced(Handle(c, s, m, pick, probes).s)
  {
    match m.kind
    case DiscoverKind => DiscoverBalanced(c, s, m, pick, probes);
    case RequestKind => RequestBalanced(c, s, m);
    case InformKind => RequestBalanced(c, s, m);
    case ReleaseKind => GiveBackBalanced(c, s, m, ByRelease);
    case DeclineKind => GiveBackBalanced(c, s, m, ByDecline);
    case OfferKind =>
    case AckKind =>
    case NakKind =>
  }

  /** Giving back schedules one timer or leaves timers and history alone. */
  lemma GiveBackTimers(c: Config, s: State, m: Message, cause: Cause) returns (i: nat)
    ensures var t := GiveBack(c, s, m, cause);
            || (t.timers == s.timers && t.log == s.log)
            || (t.timers == s.Schedule(i, UNUSABLE_DELAY, cause).timers && t.log == s.Schedule(i, UNUSABLE_DELAY, cause).log)
  {
    var ip := ReleaseWants(m);
    i := if ip.Some? && IndexOf(c, ip.value).Some? then IndexOf(c, ip.value).value else 0;
  }

  lemma GiveBackBalanced(c: Config, s: State, m: Message, cause: Cause)
    requires Balanced(s) && cause != Evicted
    ensures Balanced(GiveBack(c, s, m, cause))
  {
    var i := GiveBackTimers(c, s, m, cause);
    ScheduleBalanced(s, i, cause);
  }

  lemma ApplyBalanced(c: Config, s: State, step: Step)
    requires Balanced(s) && Enabled(s, step) && c.Valid()
    ensures Balanced(Apply(c, s, step))
  {
    match step
    case Serve(m, pick, probes) =>
      HandleBalanced(c, Entered(c, s, m), m, pick, probes);
      var r := Respond(c, s, m, pick, probes);
      BooksAppend(r.s.timers, r.s.log, Answered(m.mac, r.answer), r.s.timers);
    case Evict(mac) => DeleteBalanced(s, mac);
    case Delete(mac) => DeleteBalanced(s.(deletes := s.deletes - multiset{mac}), mac);
    case Fire(t) =>
      BooksAppend(s.timers, s.log, Fired(t, s.now, s.pool.CanFree(t.index)), s.timers - multiset{t});
    case ApiRelease(_) =>
    case Tick(_) =>
  }

  /** In every run each fired timer was scheduled before, after the full delay of its cause, and
      pending plus fired timers are exactly the scheduled ones. */
  lemma {:induction false} RunBalanced(c: Config, ss: seq<State>, steps: seq<Step>, n: nat)
    requires RunFromStart(c, ss, steps) && n <= |steps|
    ensures Balanced(ss[n])
  {
    if n > 0 {
      RunBalanced(c, ss, steps, n - 1);
      ApplyBalanced(c, ss[n - 1], steps[n - 1]);
    }
  }
}
