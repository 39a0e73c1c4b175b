/** The probers' shared state as objects updated in place under the prober's lock
    (internal/probe/probe_unix.go, probe_tcp_unix.go, probe.go). */
module ProbeBook {
  import opened Prelude
  import opened HopStats
  import opened ProbeTable

  class Book {
    const hops: seq<HopState>
    var inflight: map<Uint16, Entry>
    var terminus: int

    ghost predicate Valid()
      reads this
    {
      forall i, j | 0 <= i < j < |hops| :: hops[i] != hops[j]
    }

    ghost function View(): Table
      reads this, hops
    {
      Table(inflight, seq(|hops|, i requires 0 <= i < |hops| reads hops => hops[i].View()), terminus)
    }

    method Enlist(key: Uint16, ttl: int, now: int)
      requires Valid() && 1 <= ttl <= |hops|
      modifies this`inflight, hops[ttl - 1]
      ensures View() == Register(old(View()), key, ttl, now)
    {
      var h := hops[ttl - 1];
      inflight := inflight[key := Entry(ttl, now)];
      h.sent := h.sent + 1;
      h.inflight := h.inflight + 1;
    }

    /** The receive loop's demultiplexing block. */
    method Reply(key: Uint16, src: Option<nat>, now: int, echo: bool)
      requires Valid()
      modifies this`inflight, this`terminus, hops
      ensures View() == ProbeTable.Reply(old(View()), key, src, now, echo)
    {
      if key !in inflight {
        return;
      }
      var ttl, sentAt := inflight[key].ttl, inflight[key].sentAt;
      inflight := inflight - {key};
      if ttl - 1 < 0 || ttl - 1 >= |hops| {
        return;
      }
      var rtt := (now - sentAt) as real / 1_000_000.0;
      var h := hops[ttl - 1];
      h.inflight := h.inflight - 1;
      h.RecordReply(src, rtt, echo);
      if echo && (terminus == 0 || ttl < terminus) {
        terminus := ttl;
      }
    }

    method RecordTerminus(key: Uint16, ttl: int, src: Option<nat>, rtt: real)
      requires Valid()
      modifies this`inflight, this`terminus, hops
      ensures View() == ProbeTable.RecordTerminus(old(View()), key, ttl, src, rtt)
    {
      if key !in inflight {
        return;
      }
      inflight := inflight - {key};
      if ttl < 1 || ttl > |hops| {
        return;
      }
      var h := hops[ttl - 1];
      h.inflight := h.inflight - 1;
      h.RecordReply(src, rtt, true);
      if terminus == 0 || ttl < terminus {
        terminus := ttl;
      }
    }

    method RollbackProbe(key: Uint16, ttl: int)
      requires Valid()
      modifies this`inflight, hops
      ensures View() == Rollback(old(View()), key, ttl)
    {
      if key !in inflight {
        return;
      }
      inflight := inflight - {key};
      if ttl < 1 || ttl > |hops| {
        return;
      }
      var h := hops[ttl - 1];
      h.sent := h.sent - 1;
      h.inflight := h.inflight - 1;
    }

    method ExpireOne(key: Uint16)
      requires Valid() && key in inflight
      modifies this`inflight, hops
      ensures View() == Expire(old(View()), key)
    {
      var ttl := inflight[key].ttl;
      inflight := inflight - {key};
      if ttl - 1 < 0 || ttl - 1 >= |hops| {
        return;
      }
      var h := hops[ttl - 1];
      h.inflight := h.inflight - 1;
    }

    /** Ranges over the map in whatever order it yields its keys, deleting as it goes. */
    method PruneInflight(cutoff: int)
      requires Valid()
      modifies this`inflight, hops
      ensures View() == Prune(old(View()), cutoff)
    {
      ghost var before := View();
      ghost var gone: set<Uint16> := {};
      var todo := inflight.Keys;
      assert View() == ExpireAll(before, gone);
      while todo != {}
        invariant todo <= before.inflight.Keys && gone <= Stale(before.inflight, cutoff) && todo !! gone
        invariant Stale(before.inflight, cutoff) <= gone + todo
        invariant View() == ExpireAll(before, gone)
        decreases todo
      {
        var key :| key in todo;
        todo := todo - {key};
        if !(inflight[key].sentAt >= cutoff) {
          ExpireOneMore(before, gone, key);
          ExpireOne(key);
          gone := gone + {key};
        }
      }
      assert gone == Stale(before.inflight, cutoff);
    }

    method Snapshot() returns (out: seq<HopStat>)
      requires Valid() && 0 <= terminus <= |hops|
      ensures out == BuildSnapshot(View())
    {
      var maxTTL := |hops|;
      if terminus > 0 {
        maxTTL := terminus;
      }
      out := [];
      for ttl := 1 to maxTTL + 1
        invariant out == StatsUpTo(View().hops, ttl - 1)
      {
        var h := hops[ttl - 1];
        if h.sent != 0 {
          var variance := if h.recv < 2 then 0.0 else h.m2 / (h.recv - 1) as real;
          var settled := h.sent - h.inflight;
          var lossPct := if settled > 0 then (settled - h.recv) as real / settled as real * 100.0 else 0.0;
          out := out + [HopStat(ttl, h.addr, h.sent, h.recv, h.last, h.best, h.worst, h.mean, variance,
                                h.ewma, lossPct, h.terminus)];
        }
      }
    }
  }
}
