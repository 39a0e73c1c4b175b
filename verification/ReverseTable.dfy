/** Replication of the server's hop table into the client, one update per hop
    (cmd/dropline/serve.go, internal/agg/aggregator.go). */
module ReverseTable {
  import opened Prelude
  import opened ProbeTable

  datatype Tag = Unclassified | Host | Nat

  /** One row of the client's reverse table. */
  datatype Row = Row(
    ttl: int, addr: Option<nat>, rtt: real, lossPct: real, sent: int, recv: int,
    best: real, worst: real, avg: real, variance: real, baseline: real, tag: Tag)

  /** A row on the wire, stamped with the highest ttl of its batch. */
  datatype Update = Update(row: Row, maxTTL: int)

  datatype Status = Unresolved | Ok | Disabled | TerminatedAtNat

  function ClassifyTerminus(h: HopStat, client: nat): Tag {
    if !h.terminus || h.addr == None then Unclassified
    else if h.addr == Some(client) then Host
    else Nat
  }

  function RowOf(h: HopStat, client: nat): Row {
    Row(h.ttl, h.addr, h.lastRTT, h.lossPct, h.sent, h.recv, h.bestRTT, h.worstRTT, h.avgRTT, h.variance,
        h.baselineRTT, ClassifyTerminus(h, client))
  }

  function MaxTTL(snap: seq<HopStat>): int { if snap == [] then 0 else Last(snap).ttl }

  /** The table a snapshot stands for. */
  function TableOf(snap: seq<HopStat>, client: nat): map<int, Row> {
    if snap == [] then map[] else TableOf(Front(snap), client)[Last(snap).ttl := RowOf(Last(snap), client)]
  }

  /** The client's upsert and prune. */
  function Ingest(rows: map<int, Row>, u: Update): map<int, Row> {
    var upserted := rows[u.row.ttl := u.row];
    if u.maxTTL > 0 then map ttl | ttl in upserted && ttl <= u.maxTTL :: upserted[ttl] else upserted
  }

  /** An update replaces its own row and cuts the table off above its batch's highest TTL, if it names one. */
  lemma IngestMeaning(rows: map<int, Row>, u: Update, ttl: int)
    ensures var r := Ingest(rows, u);
            && (ttl in r <==> (ttl == u.row.ttl || ttl in rows) && (u.maxTTL <= 0 || ttl <= u.maxTTL))
            && (ttl in r ==> r[ttl] == if ttl == u.row.ttl then u.row else rows[ttl])
  {
  }

  /** The first n updates of a batch, applied in order. */
  function IngestBatch(rows: map<int, Row>, snap: seq<HopStat>, client: nat, n: nat): map<int, Row>
    requires n <= |snap|
  {
    if n == 0 then rows
    else Ingest(IngestBatch(rows, snap, client, n - 1), Update(RowOf(snap[n - 1], client), MaxTTL(snap)))
  }

  /** A row is stale when a batch neither replaces it nor prunes it. */
  predicate NothingStale(rows: map<int, Row>, snap: seq<HopStat>) {
    forall ttl | ttl in rows && ttl <= MaxTTL(snap) :: ttl in Listed(snap)
  }

  lemma {:induction false} TableOfKeys(snap: seq<HopStat>, client: nat)
    ensures TableOf(snap, client).Keys == Listed(snap)
  {
    if snap != [] {
      TableOfKeys(Front(snap), client);
      ListedAppend(Front(snap), Last(snap));
      assert snap == Front(snap) + [Last(snap)];
    }
  }

  /** The rows of a table that a batch has neither replaced so far nor pruned. */
  function Kept(rows: map<int, Row>, maxTTL: int, done: map<int, Row>): map<int, Row> {
    map ttl | ttl in rows && ttl <= maxTTL && ttl !in done :: rows[ttl]
  }

  lemma IngestFirst(rows: map<int, Row>, u: Update)
    requires 1 <= u.row.ttl <= u.maxTTL
    ensures Ingest(rows, u) == Kept(rows, u.maxTTL, map[u.row.ttl := u.row]) + map[u.row.ttl := u.row]
  {
  }

  lemma IngestNext(rows: map<int, Row>, done: map<int, Row>, u: Update)
    requires 1 <= u.row.ttl <= u.maxTTL
    requires forall ttl | ttl in done :: ttl <= u.maxTTL
    ensures Ingest(Kept(rows, u.maxTTL, done) + done, u)
         == Kept(rows, u.maxTTL, done[u.row.ttl := u.row]) + done[u.row.ttl := u.row]
  {
  }

  lemma ListedBelow(snap: seq<HopStat>, n: nat)
    requires n <= |snap| && Ascending(snap)
    ensures forall ttl :: ttl in Listed(snap[..n]) ==> ttl <= MaxTTL(snap)
  {
    forall ttl
      ensures ttl in Listed(snap[..n]) ==> ttl <= MaxTTL(snap)
    {
      if ttl in Listed(snap[..n]) {
        var i :| 0 <= i < n && snap[..n][i].ttl == ttl;
        assert snap[i].ttl <= MaxTTL(snap);
      }
    }
  }

  /** What any number of updates of one batch leave behind. */
  lemma {:induction false} BatchSoFar(rows: map<int, Row>, snap: seq<HopStat>, client: nat, n: nat)
    requires 1 <= n <= |snap| && Ascending(snap) && snap[0].ttl >= 1
    ensures var done := TableOf(snap[..n], client);
            IngestBatch(rows, snap, client, n) == Kept(rows, MaxTTL(snap), done) + done
    decreases n
  {
    hide Ingest, Kept, RowOf, Listed, Ascending;
    var u := Update(RowOf(snap[n - 1], client), MaxTTL(snap));
    assert u.row.ttl == snap[n - 1].ttl by {
      RowTTL(snap[n - 1], client);
    }
    TTLsInRange(snap, n - 1);
    assert Front(snap[..n]) == snap[..n - 1] && Last(snap[..n]) == snap[n - 1];
    if n > 1 {
      BatchSoFar(rows, snap, client, n - 1);
      TableOfKeys(snap[..n - 1], client);
      ListedBelow(snap, n - 1);
      IngestNext(rows, TableOf(snap[..n - 1], client), u);
    } else {
      assert snap[..0] == [];
      assert IngestBatch(rows, snap, client, 0) == rows;
      assert TableOf([], client) == map[];
      IngestFirst(rows, u);
    }
  }

  lemma RowTTL(h: HopStat, client: nat)
    ensures RowOf(h, client).ttl == h.ttl
  {
  }

  lemma TTLsInRange(snap: seq<HopStat>, i: nat)
    requires i < |snap| && Ascending(snap) && snap[0].ttl >= 1
    ensures 1 <= snap[i].ttl <= MaxTTL(snap)
  {
  }

  /** After a whole batch the client's table is the snapshot, exactly when no row was stale. */
  lemma {:induction false} ReplicatesIff(rows: map<int, Row>, snap: seq<HopStat>, client: nat)
    requires snap != [] && Ascending(snap) && snap[0].ttl >= 1
    ensures IngestBatch(rows, snap, client, |snap|) == TableOf(snap, client) <==> NothingStale(rows, snap)
  {
    BatchSoFar(rows, snap, client, |snap|);
    assert snap[..|snap|] == snap;
    TableOfKeys(snap, client);
    var t := TableOf(snap, client);
    var kept := map ttl | ttl in rows && ttl <= MaxTTL(snap) && ttl !in t :: rows[ttl];
    if NothingStale(rows, snap) {
      assert kept == map[];
    } else {
      var ttl :| ttl in rows && ttl <= MaxTTL(snap) && ttl !in Listed(snap);
      assert ttl in kept + t && ttl !in t;
    }
  }

  /** Later snapshots list every hop an earlier one listed, up to their own last row. */
  ghost predicate Covers(later: seq<HopStat>, earlier: seq<HopStat>) {
    forall ttl | ttl in Listed(earlier) && ttl <= MaxTTL(later) :: ttl in Listed(later)
  }

  ghost predicate Forwardable(snaps: seq<seq<HopStat>>) {
    && (forall s: seq<HopStat> | s in snaps :: Ascending(s) && (s != [] ==> s[0].ttl >= 1))
    && (forall i, j | 0 <= i < j < |snaps| :: Covers(snaps[j], snaps[i]))
  }

  /** The client's table after forwarding whole batches, starting from an empty table. */
  function Replicate(snaps: seq<seq<HopStat>>, client: nat): map<int, Row> {
    if snaps == [] then map[]
    else IngestBatch(Replicate(Front(snaps), client), Last(snaps), client, |Last(snaps)|)
  }

  /** The last batch that had anything to forward. */
  function LastShown(snaps: seq<seq<HopStat>>): (s: seq<HopStat>)
    ensures s != [] ==> s in snaps
    ensures snaps != [] && Last(snaps) != [] ==> s == Last(snaps)
  {
    if snaps == [] then [] else if Last(snaps) != [] then Last(snaps) else LastShown(Front(snaps))
  }

  /** Whichever snapshots the prober's channel dropped, after each forwarded batch the client holds
      exactly that server snapshot. */
  lemma {:induction false} ReplicationExact(snaps: seq<seq<HopStat>>, client: nat)
    requires Forwardable(snaps)
    ensures Replicate(snaps, client) == TableOf(LastShown(snaps), client)
  {
    hide Listed, IngestBatch, Ascending;
    if snaps != [] {
      var f, last := Front(snaps), Last(snaps);
      assert forall s | s in f :: s in snaps;
      ReplicationExact(f, client);
      assert last in snaps;
      if last == [] {
        BatchOfNone(Replicate(f, client), client);
      } else {
        var shown := LastShown(f);
        TableOfKeys(shown, client);
        if shown != [] {
          var i :| 0 <= i < |f| && f[i] == shown;
          assert Covers(snaps[|snaps| - 1], snaps[i]);
        }
        ReplicatesIff(Replicate(f, client), last, client);
      }
    }
  }

  lemma BatchOfNone(rows: map<int, Row>, client: nat)
    ensures IngestBatch(rows, [], client, 0) == rows
  {
  }

  // ------------------------------------------------------------------
  // The client's table and path status as updated in place
  // ------------------------------------------------------------------

  /** A NAT terminus overrides an "ok" path, and nothing overrides anything else. */
  function Escalate(status: Status, tag: Tag): Status {
    if tag == Nat && status == Ok then TerminatedAtNat else status
  }

  function EscalateBatch(status: Status, snap: seq<HopStat>, client: nat, n: nat): Status
    requires n <= |snap|
  {
    if n == 0 then status
    else Escalate(EscalateBatch(status, snap, client, n - 1), ClassifyTerminus(snap[n - 1], client))
  }

  /** The row whose reply came from an address that is not the client's. */
  ghost predicate NatAt(snap: seq<HopStat>, client: nat, i: nat)
    requires i < |snap|
  {
    snap[i].terminus && snap[i].addr.Some? && snap[i].addr.value != client
  }

  lemma {:induction false} EscalatesIff(status: Status, snap: seq<HopStat>, client: nat, n: nat)
    requires n <= |snap|
    ensures EscalateBatch(status, snap, client, n)
            == if status == Ok && exists i :: 0 <= i < n && NatAt(snap, client, i) then TerminatedAtNat else status
  {
    if n > 0 {
      EscalatesIff(status, snap, client, n - 1);
      assert ClassifyTerminus(snap[n - 1], client) == Nat <==> NatAt(snap, client, n - 1);
    }
  }

  class Client {
    var rows: map<int, Row>
    var status: Status

    constructor ()
      ensures rows == map[] && status == Unresolved
    {
      rows := map[];
      status := Unresolved;
    }

    /** Upserts one row, then deletes every row past the cap in whatever order the map yields them. */
    method IngestReverseHop(u: Update)
      modifies this
      ensures rows == Ingest(old(rows), u)
      ensures status == Escalate(old(status), u.row.tag)
    {
      rows := rows[u.row.ttl := u.row];
      if u.maxTTL > 0 {
        ghost var upserted := rows;
        var todo := rows.Keys;
        while todo != {}
          invariant todo <= upserted.Keys && rows.Keys <= upserted.Keys
          invariant status == old(status)
          invariant forall ttl :: ttl in upserted && (ttl in todo || ttl <= u.maxTTL) ==> ttl in rows
          invariant forall ttl :: ttl in rows ==> rows[ttl] == upserted[ttl] && (ttl in todo || ttl <= u.maxTTL)
          decreases todo
        {
          SomeElement(todo);
          var ttl :| ttl in todo;
          todo := todo - {ttl};
          if ttl > u.maxTTL {
            rows := rows - {ttl};
          }
        }
      }
      if u.row.tag == Nat && status == Ok {
        status := TerminatedAtNat;
      }
    }
  }

  /** The server's forwarding loop for one snapshot, over a connection that delivers in order. */
  method Forward(snap: seq<HopStat>, client: nat, peer: Client)
    modifies peer
    ensures peer.rows == IngestBatch(old(peer.rows), snap, client, |snap|)
    ensures peer.status == EscalateBatch(old(peer.status), snap, client, |snap|)
  {
    var maxTTL := 0;
    if |snap| > 0 {
      maxTTL := snap[|snap| - 1].ttl;
    }
    for i := 0 to |snap|
      invariant peer.rows == IngestBatch(old(peer.rows), snap, client, i)
      invariant peer.status == EscalateBatch(old(peer.status), snap, client, i)
    {
      peer.IngestReverseHop(Update(RowOf(snap[i], client), maxTTL));
    }
  }

  /** Forwarding snapshots to a fresh client leaves it holding the last one shown, and its status says
      whether any forwarded row ended at a foreign address. */
  method ForwardAll(snaps: seq<seq<HopStat>>, client: nat) returns (peer: Client)
    requires Forwardable(snaps)
    ensures fresh(peer)
    ensures peer.rows == TableOf(LastShown(snaps), client)
  {
    hide IngestBatch, TableOf, EscalateBatch, Forwardable;
    peer := new Client();
    for k := 0 to |snaps|
      invariant fresh(peer)
      invariant peer.rows == Replicate(snaps[..k], client)
    {
      Forward(snaps[k], client, peer);
      assert Front(snaps[..k + 1]) == snaps[..k] && Last(snaps[..k + 1]) == snaps[k];
    }
    assert snaps[..|snaps|] == snaps;
    ReplicationExact(snaps, client);
  }
}
