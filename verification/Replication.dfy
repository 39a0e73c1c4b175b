/** What the server's reverse prober publishes over a whole run is what the client ends up holding
    (internal/probe, cmd/dropline/serve.go, internal/agg/aggregator.go). */
module Replication {
  import opened Prelude
  import opened HopStats
  import opened ProbeTable
  import opened ReverseTable
  import IcmpSweep
  import PortAllocator
  import TcpSweep

  ghost predicate Increasing(at: seq<nat>) { forall i, j | 0 <= i < j < |at| :: at[i] < at[j] }

  // ------------------------------------------------------------------
  // ICMP: every published table is contiguous
  // ------------------------------------------------------------------

  ghost predicate IcmpPublishedAt(s: IcmpSweep.Prober, events: seq<IcmpSweep.Event>, k: nat, snap: seq<HopStat>) {
    && 1 <= k <= |events| && events[k - 1].Emit?
    && IcmpSweep.Enabled(IcmpSweep.Run(s, events[..k - 1]), events[k - 1])
    && var t := IcmpSweep.Run(s, events[..k]).table;
       0 <= t.terminus <= |t.hops| && snap == BuildSnapshot(t)
  }

  ghost predicate Contiguous(s: seq<HopStat>) { forall i | 0 <= i < |s| :: s[i].ttl == i + 1 }

  lemma IcmpSnapshotContiguous(s: IcmpSweep.Prober, events: seq<IcmpSweep.Event>, k: nat, snap: seq<HopStat>)
    requires IcmpSweep.Initial(s) && IcmpPublishedAt(s, events, k, snap)
    ensures Contiguous(snap) && snap != []
  {
    hide IcmpSweep.Initial, IcmpSweep.Enabled, IcmpSweep.Step, BuildSnapshot;
    var before := events[..k - 1];
    assert Front(events[..k]) == before && Last(events[..k]) == events[k - 1];
    IcmpSweep.EmittedIsContiguous(s, before, events[k - 1].t);
    IcmpSweep.RunKeeps(s, events[..k]);
  }

  lemma ContiguousCovers(later: seq<HopStat>, earlier: seq<HopStat>)
    requires Contiguous(later) && Contiguous(earlier)
    ensures Covers(later, earlier) && Ascending(later)
  {
    forall ttl | ttl in Listed(earlier) && ttl <= MaxTTL(later)
      ensures ttl in Listed(later)
    {
      assert later[ttl - 1] in later;
    }
  }

  /** Whatever subset of the ICMP prober's snapshots gets through, the client's table after each batch
      is the server's table of that moment: 1..cap, every hop once. */
  lemma {:induction false} IcmpReplicationExact(
      s: IcmpSweep.Prober, events: seq<IcmpSweep.Event>, at: seq<nat>, snaps: seq<seq<HopStat>>, client: nat)
    requires IcmpSweep.Initial(s) && |at| == |snaps| && Increasing(at) && snaps != []
    requires forall i | 0 <= i < |snaps| :: IcmpPublishedAt(s, events, at[i], snaps[i])
    ensures Replicate(snaps, client) == TableOf(Last(snaps), client)
  {
    hide IcmpPublishedAt, IcmpSweep.Initial, Contiguous, Covers, Ascending;
    forall i | 0 <= i < |snaps|
      ensures Contiguous(snaps[i]) && snaps[i] != [] && snaps[i][0].ttl == 1
    {
      IcmpSnapshotContiguous(s, events, at[i], snaps[i]);
      StartsAtOne(snaps[i]);
    }
    forall i, j | 0 <= i < |snaps| && 0 <= j < |snaps|
      ensures Covers(snaps[j], snaps[i]) && Ascending(snaps[j])
    {
      ContiguousCovers(snaps[j], snaps[i]);
    }
    forall x: seq<HopStat> | x in snaps
      ensures Ascending(x) && (x != [] ==> x[0].ttl >= 1)
    {
      var i :| 0 <= i < |snaps| && snaps[i] == x;
      assert Covers(snaps[i], snaps[i]);
    }
    ReplicationExact(snaps, client);
  }

  lemma StartsAtOne(s: seq<HopStat>)
    requires Contiguous(s) && s != []
    ensures s[0].ttl == 1
  {
  }

  // ------------------------------------------------------------------
  // TCP: failed dials leave holes, but a hop once listed stays listed
  // ------------------------------------------------------------------

  /** Probes of one hop that can no longer be rolled back. */
  function Committed(s: TcpSweep.Prober, ttl: int): int
    requires 1 <= ttl <= |s.table.hops|
  {
    s.table.hops[ttl - 1].sent - (if TcpSweep.StageOf(s, ttl).Registered? then 1 else 0)
  }

  ghost predicate Advances(s: TcpSweep.Prober, u: TcpSweep.Prober) {
    && |u.table.hops| == |s.table.hops|
    && (forall ttl | 1 <= ttl <= |s.table.hops| :: Committed(s, ttl) <= Committed(u, ttl))
    && (0 <= s.table.terminus <= |s.table.hops| ==>
          0 <= u.table.terminus <= |u.table.hops| && Cap(u.table) <= Cap(s.table))
  }

  lemma StepAdvances(s: TcpSweep.Prober, e: TcpSweep.Event)
    requires TcpSweep.WellFormed(s)
    ensures Advances(s, TcpSweep.Step(s, e))
  {
    hide PortAllocator.NextSrcPort, PortAllocator.Tries, Live, Stale, Replied;
    var u := TcpSweep.Step(s, e);
    if e.StartSweep? && TcpSweep.AllDone(s.threads) {
      forall ttl | 1 <= ttl <= |s.table.hops|
        ensures Committed(s, ttl) <= Committed(u, ttl)
      {
        if ttl <= |s.threads| {
          assert s.threads[ttl - 1] in s.threads;
        }
      }
    }
    assert forall h: Hop, src, rtt, echo :: Replied(h, src, rtt, echo).sent == h.sent by {
      RepliedKeepsSent();
    }
  }

  lemma RepliedKeepsSent()
    ensures forall h: Hop, src, rtt, echo :: Replied(h, src, rtt, echo).sent == h.sent
  {
  }

  lemma {:induction false} RunAdvances(s: TcpSweep.Prober, events: seq<TcpSweep.Event>, j: nat, k: nat)
    requires TcpSweep.WellFormed(s) && j <= k <= |events|
    ensures Advances(TcpSweep.Run(s, events[..j]), TcpSweep.Run(s, events[..k]))
    decreases k
  {
    hide TcpSweep.Step, TcpSweep.WellFormed, Committed;
    if j < k {
      RunAdvances(s, events, j, k - 1);
      assert Front(events[..k]) == events[..k - 1] && Last(events[..k]) == events[k - 1];
      StepAdvances(TcpSweep.Run(s, events[..k - 1]), events[k - 1]);
    }
  }

  /** A table published once every goroutine of the sweep has finished. */
  ghost predicate TcpPublishedAt(s: TcpSweep.Prober, events: seq<TcpSweep.Event>, k: nat, snap: seq<HopStat>)
    requires TcpSweep.WellFormed(s)
  {
    && k <= |events|
    && var u := TcpSweep.Run(s, events[..k]);
       TcpSweep.AllDone(u.threads) && 0 <= u.table.terminus <= |u.table.hops| && snap == BuildSnapshot(u.table)
  }

  lemma SettledCommitted(u: TcpSweep.Prober, ttl: int)
    requires TcpSweep.AllDone(u.threads) && 1 <= ttl <= |u.table.hops|
    ensures Committed(u, ttl) == u.table.hops[ttl - 1].sent
  {
    if ttl <= |u.threads| {
      assert u.threads[ttl - 1] in u.threads;
    }
  }

  lemma BuildSnapshotMeaning(t: Table)
    requires 0 <= t.terminus <= |t.hops|
    ensures var s := BuildSnapshot(t);
            && Ascending(s) && (s != [] ==> s[0].ttl >= 1) && MaxTTL(s) <= Cap(t)
            && (forall ttl :: ttl in Listed(s) <==> 1 <= ttl <= Cap(t) && t.hops[ttl - 1].sent != 0)
  {
    StatsUpToMeaning(t.hops, Cap(t));
    var s := BuildSnapshot(t);
    forall i | 0 <= i < |s|
      ensures 1 <= s[i].ttl <= Cap(t)
    {
      assert s[i].ttl in Listed(s);
    }
    forall ttl | 1 <= ttl <= Cap(t) && t.hops[ttl - 1].sent != 0
      ensures ttl in Listed(s)
    {
      assert ttl - 1 + 1 in set i | 0 <= i < Cap(t) && t.hops[i].sent != 0 :: i + 1;
    }
  }

  lemma TcpCovers(s: TcpSweep.Prober, u: TcpSweep.Prober, v: TcpSweep.Prober)
    requires Advances(s, u) && Advances(u, v)
    requires forall ttl | 1 <= ttl <= |s.table.hops| :: Committed(s, ttl) >= 0
    requires TcpSweep.AllDone(u.threads) && TcpSweep.AllDone(v.threads)
    requires 0 <= u.table.terminus <= |u.table.hops|
    ensures 0 <= v.table.terminus <= |v.table.hops|
    ensures Covers(BuildSnapshot(v.table), BuildSnapshot(u.table))
  {
    hide BuildSnapshot, Listed, TcpSweep.AllDone, Committed;
    BuildSnapshotMeaning(u.table);
    BuildSnapshotMeaning(v.table);
    var later, earlier := BuildSnapshot(v.table), BuildSnapshot(u.table);
    forall ttl | ttl in Listed(earlier) && ttl <= MaxTTL(later)
      ensures ttl in Listed(later)
    {
      SettledCommitted(u, ttl);
      SettledCommitted(v, ttl);
      assert Committed(s, ttl) <= Committed(u, ttl) <= Committed(v, ttl);
    }
  }

  /** The same for the TCP prober, on any interleaving of its goroutines, even one that reuses ports:
      the client holds the last table that listed anything. */
  lemma {:induction false} TcpReplicationExact(
      s: TcpSweep.Prober, events: seq<TcpSweep.Event>, at: seq<nat>, snaps: seq<seq<HopStat>>, client: nat)
    requires TcpSweep.WellFormed(s) && forall ttl | 1 <= ttl <= |s.table.hops| :: Committed(s, ttl) >= 0
    requires |at| == |snaps| && Increasing(at)
    requires forall i | 0 <= i < |snaps| :: TcpPublishedAt(s, events, at[i], snaps[i])
    ensures Replicate(snaps, client) == TableOf(LastShown(snaps), client)
  {
    hide Advances, Covers, Ascending, BuildSnapshot, TcpSweep.WellFormed, Committed;
    forall i, j | 0 <= i < j < |snaps|
      ensures Covers(snaps[j], snaps[i])
    {
      RunAdvances(s, events, 0, at[i]);
      RunAdvances(s, events, at[i], at[j]);
      assert events[..0] == [];
      TcpCovers(s, TcpSweep.Run(s, events[..at[i]]), TcpSweep.Run(s, events[..at[j]]));
    }
    forall x: seq<HopStat> | x in snaps
      ensures Ascending(x) && (x != [] ==> x[0].ttl >= 1)
    {
      var i :| 0 <= i < |snaps| && snaps[i] == x;
      assert TcpPublishedAt(s, events, at[i], snaps[i]);
      BuildSnapshotMeaning(TcpSweep.Run(s, events[..at[i]]).table);
    }
    ReplicationExact(snaps, client);
  }
}
