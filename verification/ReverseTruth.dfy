/** The client's reverse table against the record of the server's prober: prober, snapshots, forwarding and
    client together (internal/probe, cmd/dropline/serve.go, internal/agg/aggregator.go). */
module ReverseTruth {
  import opened Prelude
  import opened ProbeTable
  import opened ProbeHistory
  import opened ReverseTable
  import Replication
  import ProbeRuns
  import IcmpSweep
  import TcpSweep

  /** A row of the client's table says what the record says of that hop, and whose address ended the path. */
  ghost predicate RowTells(r: Row, w: seq<Act>, ttl: int, client: nat) {
    var xs := Answers(w, ttl);
    && r.ttl == ttl
    && r.sent == |Launched(w, ttl)| - |TakenBack(w, ttl)|
    && r.recv == |Heard(w, ttl)|
    && LossTold(r.lossPct, |Heard(w, ttl)| + |Aged(w, ttl)|, |Aged(w, ttl)|)
    && FirstSource(r.addr, xs)
    && FiguresTold(r.rtt, r.best, r.worst, r.avg, r.variance, r.baseline, Rtts(xs))
    && (r.tag == Host <==> Echoed(w, ttl) && r.addr == Some(client))
    && (r.tag == Nat <==> Echoed(w, ttl) && r.addr != None && r.addr != Some(client))
  }

  ghost predicate ClientTells(rows: map<int, Row>, w: seq<Act>, hops: nat, client: nat) {
    && (forall ttl | ttl in rows :: RowTells(rows[ttl], w, ttl, client))
    && (exists cap :: IsCap(cap, w, hops)
         && forall ttl :: ttl in rows <==> 1 <= ttl <= cap && |Launched(w, ttl)| > |TakenBack(w, ttl)|)
  }

  lemma {:induction false} RowOfSnapshot(snap: seq<HopStat>, client: nat, ttl: int) returns (h: HopStat)
    requires ttl in TableOf(snap, client)
    ensures h in snap && h.ttl == ttl && TableOf(snap, client)[ttl] == RowOf(h, client)
  {
    hide RowOf;
    h := Last(snap);
    if ttl != h.ttl {
      h := RowOfSnapshot(Front(snap), client, ttl);
    }
  }

  lemma RowKeepsFigures(h: HopStat, w: seq<Act>, ttl: int, client: nat)
    requires RowTold(h, w, ttl)
    ensures RowTells(RowOf(h, client), w, ttl, client)
  {
    hide Answers, Launched, TakenBack, Heard, Aged, LossTold, FirstSource, FiguresTold, Echoed;
  }

  lemma TableTells(snap: seq<HopStat>, w: seq<Act>, hops: nat, client: nat)
    requires SnapshotTold(snap, w, hops)
    ensures ClientTells(TableOf(snap, client), w, hops, client)
  {
    hide RowTold, RowTells, IsCap, Launched, TakenBack, RowOf;
    TableOfKeys(snap, client);
    var rows := TableOf(snap, client);
    forall ttl | ttl in rows
      ensures RowTells(rows[ttl], w, ttl, client)
    {
      var h := RowOfSnapshot(snap, client, ttl);
      RowKeepsFigures(h, w, ttl, client);
    }
    var cap :| IsCap(cap, w, hops)
      && forall ttl :: ttl in Listed(snap) <==> 1 <= ttl <= cap && |Launched(w, ttl)| > |TakenBack(w, ttl)|;
    assert forall ttl :: ttl in rows <==> 1 <= ttl <= cap && |Launched(w, ttl)| > |TakenBack(w, ttl)|;
  }

  /** Whatever subset of the ICMP prober's snapshots gets through, the client's table tells the record of the
      server's run up to the last of them. */
  lemma {:induction false} IcmpClientTells(
      s: IcmpSweep.Prober, events: seq<IcmpSweep.Event>, at: seq<nat>, snaps: seq<seq<HopStat>>, client: nat)
    requires IcmpSweep.Initial(s) && |at| == |snaps| && Replication.Increasing(at) && snaps != []
    requires forall i | 0 <= i < |snaps| :: Replication.IcmpPublishedAt(s, events, at[i], snaps[i])
    ensures Last(at) <= |events|
    ensures var run := events[..Last(at)];
            ClientTells(Replicate(snaps, client), ProbeRuns.IcmpRecord(s, run),
                        |IcmpSweep.Run(s, run).table.hops|, client)
  {
    var n := |snaps| - 1;
    assert Replication.IcmpPublishedAt(s, events, at[n], snaps[n]);
    hide SnapshotTold, ClientTells, IcmpSweep.Run, ProbeRuns.IcmpRecord, BuildSnapshot, Replication.Increasing;
    Replication.IcmpReplicationExact(s, events, at, snaps, client);
    var run := events[..at[n]];
    ProbeRuns.IcmpSnapshotTold(s, run);
    TableTells(snaps[n], ProbeRuns.IcmpRecord(s, run), |IcmpSweep.Run(s, run).table.hops|, client);
  }

  lemma {:induction false} RoomyPrefix(s: TcpSweep.Prober, events: seq<TcpSweep.Event>, k: nat)
    requires TcpSweep.WellFormed(s) && TcpSweep.RoomyAtStarts(s, events) && k <= |events|
    ensures TcpSweep.RoomyAtStarts(s, events[..k])
  {
    if k < |events| {
      RoomyPrefix(s, Front(events), k);
      assert Front(events)[..k] == events[..k];
    } else {
      assert events[..k] == events;
    }
  }

  lemma {:induction false} ShownIsLatest(snaps: seq<seq<HopStat>>, n: nat)
    requires n < |snaps| && snaps[n] != [] && forall j | n < j < |snaps| :: snaps[j] == []
    ensures LastShown(snaps) == snaps[n]
  {
    if n < |snaps| - 1 {
      ShownIsLatest(Front(snaps), n);
    }
  }

  /** The same for the TCP prober, as long as each of its sweeps has room: n is the last snapshot that lists
      anything. */
  lemma {:induction false} TcpClientTells(
      s: TcpSweep.Prober, events: seq<TcpSweep.Event>, at: seq<nat>, snaps: seq<seq<HopStat>>, n: nat, client: nat)
    requires TcpSweep.Initial(s) && TcpSweep.WellFormed(s) && TcpSweep.RoomyAtStarts(s, events)
    requires |at| == |snaps| && Replication.Increasing(at)
    requires forall i | 0 <= i < |snaps| :: Replication.TcpPublishedAt(s, events, at[i], snaps[i])
    requires n < |snaps| && snaps[n] != [] && forall j | n < j < |snaps| :: snaps[j] == []
    ensures at[n] <= |events|
    ensures var run := events[..at[n]];
            ClientTells(Replicate(snaps, client), ProbeRuns.TcpRecord(s, run),
                        |TcpSweep.Run(s, run).table.hops|, client)
  {
    assert Replication.TcpPublishedAt(s, events, at[n], snaps[n]);
    forall ttl | 1 <= ttl <= |s.table.hops|
      ensures Replication.Committed(s, ttl) >= 0
    {
      NothingCommitted(s, ttl);
    }
    hide SnapshotTold, ClientTells, TcpSweep.Run, ProbeRuns.TcpRecord, BuildSnapshot, Replication.Increasing;
    hide TcpSweep.RoomyAtStarts, TcpSweep.Initial, TcpSweep.WellFormed, Replication.Committed;
    Replication.TcpReplicationExact(s, events, at, snaps, client);
    ShownIsLatest(snaps, n);
    var run := events[..at[n]];
    RoomyPrefix(s, events, at[n]);
    ProbeRuns.TcpSnapshotTold(s, run);
    TableTells(snaps[n], ProbeRuns.TcpRecord(s, run), |TcpSweep.Run(s, run).table.hops|, client);
  }

  lemma NothingCommitted(s: TcpSweep.Prober, ttl: int)
    requires TcpSweep.Initial(s) && 1 <= ttl <= |s.table.hops|
    ensures Replication.Committed(s, ttl) == 0
  {
  }
}
