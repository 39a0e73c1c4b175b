/** Every table either prober publishes, after any run, is the one the record of that run tells
    (internal/probe/probe_unix.go, probe_tcp_unix.go). */
module ProbeRuns {
  import opened Prelude
  import opened ProbeTable
  import opened ProbeHistory
  import IcmpSweep
  import PortAllocator
  import TcpSweep

  // ------------------------------------------------------------------
  // ICMP
  // ------------------------------------------------------------------

  /** A probe leaves under the next sequence number; every packet may find one; publishing gives up
      what is older than the loss timeout. */
  function IcmpAct(s: IcmpSweep.Prober, e: IcmpSweep.Event): Act {
    if !IcmpSweep.Enabled(s, e) then Other
    else
      match e
      case StartSweep(_) => Other
      case Send(t) => Launch(s.nextSeq, s.phase.next, t)
      case Emit(t) => Expiry(t - LossTimeout(s.interval))
      case Answer(key, src, now, echo) => Packet(key, src, now, echo)
  }

  /** The record of a run, one act for each event. */
  function IcmpRecord(s: IcmpSweep.Prober, events: seq<IcmpSweep.Event>): (w: seq<Act>)
    ensures |w| == |events|
  {
    if events == [] then []
    else IcmpRecord(s, Front(events)) + [IcmpAct(IcmpSweep.Run(s, Front(events)), Last(events))]
  }

  lemma IcmpStepActs(s: IcmpSweep.Prober, e: IcmpSweep.Event)
    requires IcmpSweep.Inv(s)
    ensures Sound(s.table, IcmpAct(s, e))
    ensures IcmpSweep.Step(s, e).table == Apply(s.table, IcmpAct(s, e))
  {
    hide IcmpSweep.Inv, Register, Reply, Prune, LossTimeout;
    IcmpSweep.NextSeqIsFree(s);
  }

  /** Each probe keeps its key to itself until it settles, and every counter is what the record tells. */
  lemma {:induction false} IcmpRunTold(s: IcmpSweep.Prober, events: seq<IcmpSweep.Event>)
    requires IcmpSweep.Initial(s)
    ensures TableTold(IcmpSweep.Run(s, events).table, IcmpRecord(s, events))
  {
    hide TableTold, IcmpSweep.Step, Apply, IcmpSweep.Inv, IcmpAct, Sound;
    if events == [] {
      IcmpInitialFresh(s);
      FreshIsTold(s.table);
    } else {
      IcmpRunTold(s, Front(events));
      IcmpSweep.RunKeeps(s, Front(events));
      var u := IcmpSweep.Run(s, Front(events));
      IcmpStepActs(u, Last(events));
      TableStep(u.table, IcmpRecord(s, Front(events)), IcmpAct(u, Last(events)));
    }
  }

  lemma IcmpInitialFresh(s: IcmpSweep.Prober)
    requires IcmpSweep.Initial(s)
    ensures FreshTable(s.table)
  {
  }

  lemma {:induction false} IcmpSnapshotTold(s: IcmpSweep.Prober, events: seq<IcmpSweep.Event>)
    requires IcmpSweep.Initial(s)
    ensures var t := IcmpSweep.Run(s, events).table;
            && 0 <= t.terminus <= |t.hops|
            && SnapshotTold(BuildSnapshot(t), IcmpRecord(s, events), |t.hops|)
  {
    hide TableTold, SnapshotTold, IcmpSweep.Run, IcmpRecord, BuildSnapshot;
    IcmpRunTold(s, events);
    SnapshotTells(IcmpSweep.Run(s, events).table, IcmpRecord(s, events));
  }

  /** The next sweep goes from hop 1 to the nearest hop that has answered as the destination. */
  lemma {:induction false} IcmpSweepReaches(s: IcmpSweep.Prober, events: seq<IcmpSweep.Event>, t: int)
    requires IcmpSweep.Initial(s) && IcmpSweep.Enabled(IcmpSweep.Run(s, events), IcmpSweep.StartSweep(t))
    ensures var p := IcmpSweep.Step(IcmpSweep.Run(s, events), IcmpSweep.StartSweep(t)).phase;
            p.Sweeping? && p.next == 1
            && IsCap(p.maxTTL, IcmpRecord(s, events), |IcmpSweep.Run(s, events).table.hops|)
  {
    hide TableTold, IcmpSweep.Run, IcmpRecord, IsCap;
    IcmpRunTold(s, events);
    CapOf(IcmpSweep.Run(s, events).table, IcmpRecord(s, events));
    TerminusInRange(IcmpSweep.Run(s, events).table, IcmpRecord(s, events));
  }

  lemma TerminusInRange(t: Table, w: seq<Act>)
    requires TableTold(t, w)
    ensures 0 <= t.terminus <= |t.hops|
  {
  }

  /** The n-th probe to leave carries the n-th number of the cycle. */
  function LaunchesIn(w: seq<Act>): nat {
    if w == [] then 0 else LaunchesIn(Front(w)) + (if Last(w).Launch? then 1 else 0)
  }

  lemma {:induction false} LaunchKeys(s: IcmpSweep.Prober, events: seq<IcmpSweep.Event>)
    requires IcmpSweep.Initial(s)
    ensures var w := IcmpRecord(s, events);
            && IcmpSweep.Run(s, events).log.sends == LaunchesIn(w)
            && forall i | 0 <= i < |w| && w[i].Launch? :: w[i].key == 1 + LaunchesIn(w[..i]) % 65535
  {
    hide IcmpSweep.Inv;
    if events != [] {
      var f := Front(events);
      LaunchKeys(s, f);
      IcmpSweep.RunKeeps(s, f);
      NextKey(IcmpSweep.Run(s, f));
      var v, w := IcmpRecord(s, f), IcmpRecord(s, events);
      assert Front(w) == v == w[..|v|];
      assert forall i | 0 <= i < |v| :: v[..i] == w[..i];
    }
  }

  lemma NextKey(s: IcmpSweep.Prober)
    requires IcmpSweep.Inv(s)
    ensures s.nextSeq == 1 + s.log.sends % 65535
  {
  }

  // ------------------------------------------------------------------
  // TCP
  // ------------------------------------------------------------------

  /** A dialer that sees the destination counts as a packet under its own port. */
  function TcpAct(s: TcpSweep.Prober, e: TcpSweep.Event): Act {
    match e
    case Enlist(ttl, now) =>
      var x := TcpSweep.StageOf(s, ttl);
      if x.Allocated? then Launch(x.port, ttl, now) else Other
    case Reach(ttl, src, now) =>
      var x := TcpSweep.StageOf(s, ttl);
      if x.Registered? then Packet(x.port, src, now, true) else Other
    case Fail(ttl) =>
      var x := TcpSweep.StageOf(s, ttl);
      if x.Registered? then Withdraw(x.port) else Other
    case TimeExceeded(port, src, now) => Packet(port, src, now, false)
    case AgeOut(cutoff) => Expiry(cutoff)
    case _ => Other
  }

  function TcpRecord(s: TcpSweep.Prober, events: seq<TcpSweep.Event>): (w: seq<Act>)
    requires TcpSweep.WellFormed(s)
    ensures |w| == |events|
  {
    if events == [] then []
    else TcpRecord(s, Front(events)) + [TcpAct(TcpSweep.Run(s, Front(events)), Last(events))]
  }

  lemma TcpActIsSound(s: TcpSweep.Prober, e: TcpSweep.Event)
    requires TcpSweep.Safe(s)
    ensures Sound(s.table, TcpAct(s, e))
  {
    hide TcpSweep.Safe;
    if e.Enlist? && TcpSweep.StageOf(s, e.ttl).Allocated? {
      TcpSweep.SafeOwns(s, e.ttl - 1);
      SafeHasHops(s);
    }
  }

  lemma SafeHasHops(s: TcpSweep.Prober)
    requires TcpSweep.Safe(s)
    ensures |s.threads| <= |s.table.hops|
  {
  }

  /** A dialer finds its own probe or none. */
  lemma DialerActs(s: TcpSweep.Prober, e: TcpSweep.Event)
    requires TcpSweep.Safe(s) && (e.Reach? || e.Fail?)
    ensures TcpSweep.Step(s, e).table == Apply(s.table, TcpAct(s, e))
  {
    assert TcpSweep.WellFormed(s);
    hide TcpSweep.Safe, SettleAs, Millis;
    if TcpSweep.StageOf(s, e.ttl).Registered? {
      TcpSweep.SafeOwns(s, e.ttl - 1);
    }
  }

  lemma TcpStepActs(s: TcpSweep.Prober, e: TcpSweep.Event)
    requires TcpSweep.Safe(s)
    ensures Sound(s.table, TcpAct(s, e))
    ensures TcpSweep.Step(s, e).table == Apply(s.table, TcpAct(s, e))
  {
    assert TcpSweep.WellFormed(s);
    TcpActIsSound(s, e);
    if e.Reach? || e.Fail? {
      DialerActs(s, e);
    } else {
      hide TcpSweep.Safe, Register, Prune, Reply, PortAllocator.NextSrcPort, PortAllocator.Tries;
    }
  }

  /** The same over every interleaving of the goroutines, as long as each sweep has room. */
  lemma {:induction false} TcpRunTold(s: TcpSweep.Prober, events: seq<TcpSweep.Event>)
    requires TcpSweep.Initial(s) && TcpSweep.WellFormed(s) && TcpSweep.RoomyAtStarts(s, events)
    ensures TableTold(TcpSweep.Run(s, events).table, TcpRecord(s, events))
  {
    hide TableTold, TcpSweep.Step, Apply, TcpSweep.Safe, TcpAct, Sound, TcpSweep.WellFormed;
    TcpSweep.InitialSafe(s);
    if events == [] {
      TcpInitialFresh(s);
      FreshIsTold(s.table);
    } else {
      TcpRunTold(s, Front(events));
      TcpSweep.RunIsSafe(s, Front(events));
      var u := TcpSweep.Run(s, Front(events));
      TcpStepActs(u, Last(events));
      TableStep(u.table, TcpRecord(s, Front(events)), TcpAct(u, Last(events)));
    }
  }

  lemma TcpInitialFresh(s: TcpSweep.Prober)
    requires TcpSweep.Initial(s)
    ensures FreshTable(s.table)
  {
  }

  lemma {:induction false} TcpSnapshotTold(s: TcpSweep.Prober, events: seq<TcpSweep.Event>)
    requires TcpSweep.Initial(s) && TcpSweep.WellFormed(s) && TcpSweep.RoomyAtStarts(s, events)
    ensures var t := TcpSweep.Run(s, events).table;
            && 0 <= t.terminus <= |t.hops|
            && SnapshotTold(BuildSnapshot(t), TcpRecord(s, events), |t.hops|)
  {
    hide TableTold, SnapshotTold, TcpSweep.Run, TcpRecord, BuildSnapshot;
    TcpRunTold(s, events);
    SnapshotTells(TcpSweep.Run(s, events).table, TcpRecord(s, events));
  }

  /** The next sweep has one goroutine for each hop up to the nearest that has answered as the destination. */
  lemma {:induction false} TcpSweepReaches(s: TcpSweep.Prober, events: seq<TcpSweep.Event>)
    requires TcpSweep.Initial(s) && TcpSweep.WellFormed(s) && TcpSweep.RoomyAtStarts(s, events)
    requires TcpSweep.AllDone(TcpSweep.Run(s, events).threads)
    ensures var threads := TcpSweep.Step(TcpSweep.Run(s, events), TcpSweep.StartSweep).threads;
            && (forall x | x in threads :: x == TcpSweep.Waiting)
            && IsCap(|threads|, TcpRecord(s, events), |TcpSweep.Run(s, events).table.hops|)
  {
    hide TableTold, TcpSweep.Run, TcpRecord, IsCap, TcpSweep.RoomyAtStarts;
    TcpRunTold(s, events);
    CapOf(TcpSweep.Run(s, events).table, TcpRecord(s, events));
    TerminusInRange(TcpSweep.Run(s, events).table, TcpRecord(s, events));
  }
}
