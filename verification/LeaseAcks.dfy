/** One address, two clients: between two ACKs of one address lies a free of it. */
module LeaseAcks {
  import opened Basics
  import opened Address
  import opened Pool
  import opened Lease
  import opened LeaseEffects
  import opened LeaseBooks

  /** An ACK to a client without a static assignment. */
  predicate DynamicAck(c: Config, e: Event) {
    e.Answered? && e.answer.Ack? && !c.Static(e.mac)
  }

  predicate FreesIndex(e: Event, i: nat) {
    e.Fired? && e.freed && e.timer.index == i
  }

  /** The client that got the last dynamic ACK for index i since i was last freed. */
  function Holder(c: Config, log: seq<Event>, i: nat): Option<Mac> {
    if log == [] then None
    else
      var e := log[|log| - 1];
      if FreesIndex(e, i) then None
      else if DynamicAck(c, e) && IndexOf(c, e.answer.ip) == Some(i) then Some(e.mac)
      else Holder(c, log[..|log| - 1], i)
  }

  /** Who holds an index by the history owns it in the pool. */
  ghost predicate HoldersOwn(c: Config, p: PoolState, log: seq<Event>) {
    forall i: nat :: Holder(c, log, i).Some? ==> i in p.mac && p.mac[i] == Holder(c, log, i).value
  }

  /** A dynamic ACK for index i never goes past the holder of i. */
  ghost predicate AckAllowed(c: Config, before: seq<Event>, e: Event) {
    DynamicAck(c, e) ==>
      && IndexOf(c, e.answer.ip).Some?
      && var h := Holder(c, before, IndexOf(c, e.answer.ip).value); h == None || h == Some(e.mac)
  }

  ghost predicate AcksAllowed(c: Config, log: seq<Event>) {
    forall k :: 0 <= k < |log| ==> AckAllowed(c, log[..k], log[k])
  }

  ghost predicate Exclusive(c: Config, s: State) {
    HoldersOwn(c, s.pool, s.log) && AcksAllowed(c, s.log)
  }

  lemma AcksAllowedAppend(c: Config, log: seq<Event>, e: Event)
    requires AcksAllowed(c, log) && AckAllowed(c, log, e)
    ensures AcksAllowed(c, log + [e])
  {
    var log' := log + [e];
    forall k | 0 <= k < |log'|
      ensures AckAllowed(c, log'[..k], log'[k])
    {
      if k < |log| {
        assert log'[..k] == log[..k];
      } else {
        assert log'[..k] == log;
      }
    }
  }

  lemma HolderAppend(c: Config, log: seq<Event>, e: Event, i: nat)
    ensures Holder(c, log + [e], i) ==
            if FreesIndex(e, i) then None
            else if DynamicAck(c, e) && IndexOf(c, e.answer.ip) == Some(i) then Some(e.mac)
            else Holder(c, log, i)
  {
  }

  /** Quiet events change no holder. */
  lemma {:induction false} QuietHolder(c: Config, a: seq<Event>, b: seq<Event>, i: nat)
    requires LogGrows(a, b)
    ensures Holder(c, b, i) == Holder(c, a, i)
  {
    if |a| == |b| {
      assert a == b;
    } else {
      QuietHolder(c, a, b[..|b| - 1], i);
    }
  }

  lemma {:induction false} QuietAllowed(c: Config, a: seq<Event>, b: seq<Event>)
    requires LogGrows(a, b) && AcksAllowed(c, a)
    ensures AcksAllowed(c, b)
  {
    if |a| == |b| {
      assert a == b;
    } else {
      var n := |b| - 1;
      QuietAllowed(c, a, b[..n]);
      assert b == b[..n] + [b[n]];
      AcksAllowedAppend(c, b[..n], b[n]);
    }
  }

  lemma FrameExclusive(c: Config, s: State, s': State, mac: Mac)
    requires Exclusive(c, s) && Frame(s, s', mac)
    ensures Exclusive(c, s')
  {
    QuietAllowed(c, s.log, s'.log);
    forall i: nat | Holder(c, s'.log, i).Some?
      ensures i in s'.pool.mac && s'.pool.mac[i] == Holder(c, s'.log, i).value
    {
      QuietHolder(c, s.log, s'.log, i);
    }
  }

  /** Only a request earns an ACK, and a dynamic one only for an index the client owns. */
  lemma AckIsOwned(c: Config, s: State, m: Message, pick: nat, probes: seq<bool>)
    requires PoolReady(c, s) && ClientMac(m.mac) && !c.Static(m.mac)
    requires Respond(c, s, m, pick, probes).answer.Ack?
    ensures var i := IndexOf(c, Respond(c, s, m, pick, probes).answer.ip);
            i.Some? && i.value in s.pool.mac && s.pool.mac[i.value] == m.mac
  {
    var e := Entered(c, s, m);
    if m.kind == DiscoverKind {
      DiscoverEnds(c, e, m, pick, probes);
    } else {
      var ip, i := RequestShape(c, e, m);
      assert Granted(c, e, m, Request(c, e, m), ip, i);
      IndexRoundTrip(c.start, c.range, i);
    }
  }

  /** A Discover ends in an offer or in silence, whatever the probes answer. */
  lemma DiscoverEnds(c: Config, s: State, m: Message, pick: nat, probes: seq<bool>)
    ensures var a := Discover(c, s, m, pick, probes).answer; a.Offer? || a.Silent?
  {
    RetryEnds(c, s, m, None, true, pick, probes);
    RetryEnds(c, s.DeleteLease(m.mac), m, None, true, pick, probes);
  }

  lemma {:induction false} RetryEnds(c: Config, s: State, m: Message, free: Option<nat>, firstTry: bool, pick: nat, probes: seq<bool>)
    ensures var a := Retry(c, s, m, free, firstTry, pick, probes).answer; a.Offer? || a.Silent?
    decreases |probes|, firstTry
  {
    match Choose(c, s.pool, m, free, firstTry, pick)
    case GiveUp =>
    case TryAgain =>
      if firstTry {
        RetryEnds(c, s, m, free, false, pick, probes);
      }
    case Chosen(p, i) =>
      if probes != [] && probes[0] {
        RetryEnds(c, Conflict(Locked(c, s, m, p, i), m, i), m, Some(0), false, pick, probes[1..]);
      }
  }

  lemma AnswerExclusive(c: Config, s: State, e: Event)
    requires Exclusive(c, s) && e.Answered?
    requires DynamicAck(c, e) ==>
               var i := IndexOf(c, e.answer.ip);
               i.Some? && i.value in s.pool.mac && s.pool.mac[i.value] == e.mac
    ensures Exclusive(c, s.Log(e))
  {
    AcksAllowedAppend(c, s.log, e);
    forall i: nat
      ensures Holder(c, s.log + [e], i).Some? ==> i in s.pool.mac && s.pool.mac[i] == Holder(c, s.log + [e], i).value
    {
      HolderAppend(c, s.log, e, i);
    }
  }

  lemma FireExclusive(c: Config, s: State, t: Timer)
    requires Exclusive(c, s) && s.pool.Valid()
    ensures Exclusive(c, FireTimer(s, t))
  {
    var e := Fired(t, s.now, s.pool.CanFree(t.index));
    AcksAllowedAppend(c, s.log, e);
    forall i: nat
      ensures Holder(c, s.log + [e], i).Some? ==>
                i in FireTimer(s, t).pool.mac && FireTimer(s, t).pool.mac[i] == Holder(c, s.log + [e], i).value
    {
      HolderAppend(c, s.log, e, i);
    }
  }

  lemma ServeExclusive(c: Config, s: State, m: Message, pick: nat, probes: seq<bool>)
    requires Exclusive(c, s) && PoolReady(c, s) && Enabled(s, Serve(m, pick, probes))
    ensures Exclusive(c, Apply(c, s, Serve(m, pick, probes)))
  {
    var r := Respond(c, s, m, pick, probes);
    RespondFrame(c, s, m, pick, probes);
    FrameExclusive(c, s, r.s, m.mac);
    if r.answer.Ack? && !c.Static(m.mac) {
      AckIsOwned(c, s, m, pick, probes);
    }
    AnswerExclusive(c, r.s, Answered(m.mac, r.answer));
  }

  lemma ApplyExclusive(c: Config, s: State, step: Step)
    requires Exclusive(c, s) && PoolReady(c, s) && Enabled(s, step)
    ensures Exclusive(c, Apply(c, s, step))
  {
    match step
    case Serve(m, pick, probes) => ServeExclusive(c, s, m, pick, probes);
    case Evict(mac) =>
      DeleteFrame(s, mac);
      FrameExclusive(c, s, s.DeleteLease(mac), mac);
    case Delete(mac) =>
      var d := s.(deletes := s.deletes - multiset{mac});
      DeleteFrame(d, mac);
      FrameExclusive(c, d, d.DeleteLease(mac), mac);
    case Fire(t) => FireExclusive(c, s, t);
    case ApiRelease(_) =>
    case Tick(_) =>
  }

  lemma {:induction false} RunExclusive(c: Config, ss: seq<State>, steps: seq<Step>, n: nat)
    requires RunFromStart(c, ss, steps) && n <= |steps|
    ensures Exclusive(c, ss[n])
  {
    if n > 0 {
      RunExclusive(c, ss, steps, n - 1);
      RunPoolReady(c, ss, steps, n - 1);
      ApplyExclusive(c, ss[n - 1], steps[n - 1]);
    }
  }

  /** Without a free in between, the client of a dynamic ACK stays the holder. */
  lemma {:induction false} HolderPersists(c: Config, log: seq<Event>, j: nat, k: nat, i: nat)
    requires AcksAllowed(c, log) && j < k <= |log|
    requires DynamicAck(c, log[j]) && IndexOf(c, log[j].answer.ip) == Some(i)
    requires forall f :: j < f < k ==> !FreesIndex(log[f], i)
    ensures Holder(c, log[..k], i) == Some(log[j].mac)
    decreases k
  {
    var e := log[k - 1];
    assert log[..k] == log[..k - 1] + [e];
    HolderAppend(c, log[..k - 1], e, i);
    if j < k - 1 {
      HolderPersists(c, log, j, k - 1, i);
      assert AckAllowed(c, log[..k - 1], log[k - 1]);
    }
  }

  /** In every run, if one address is ACKed to two different clients without static assignment,
      then between the two ACKs a timer freed it, and that timer had been scheduled, by an
      eviction, a release, a decline or a probe conflict, its full delay earlier. */
  lemma AckedTwiceMeansFreed(c: Config, ss: seq<State>, steps: seq<Step>, n: nat, j: nat, k: nat)
    returns (f: nat, g: nat)
    requires RunFromStart(c, ss, steps) && n <= |steps|
    requires j < k < |ss[n].log|
    requires DynamicAck(c, ss[n].log[j]) && DynamicAck(c, ss[n].log[k])
    requires ss[n].log[j].answer == ss[n].log[k].answer && ss[n].log[j].mac != ss[n].log[k].mac
    ensures var log := ss[n].log;
            && j < f < k && log[f].Fired? && log[f].freed
            && c.AddressOf(log[f].timer.index) == log[k].answer.ip
            && g < f && log[g].Scheduled? && log[g].timer == log[f].timer
            && log[f].at >= log[g].at + DelayOf(log[f].timer.cause)
  {
    var log := ss[n].log;
    RunExclusive(c, ss, steps, n);
    RunPoolReady(c, ss, steps, n);
    RunBalanced(c, ss, steps, n);
    assert AckAllowed(c, log[..k], log[k]) && AckAllowed(c, log[..j], log[j]);
    var i := IndexOf(c, log[k].answer.ip).value;
    if forall x :: j < x < k ==> !FreesIndex(log[x], i) {
      HolderPersists(c, log, j, k, i);
    }
    f :| j < f < k && FreesIndex(log[f], i);
    assert ScheduledBefore(log, f, log[f].timer);
    g :| 0 <= g < f && g < |log| && log[g].Scheduled? && log[g].timer == log[f].timer;
    assert OnTime(log[f]) && OnTime(log[g]);
    IndexArithmetic(c.start, c.start + c.range - 1, log[k].answer.ip);
  }
}
