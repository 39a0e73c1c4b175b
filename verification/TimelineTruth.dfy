/** The published timeline against the packets that were actually received: receiver and aggregator
    together (internal/stream/stats.go, internal/agg/aggregator.go). */
module TimelineTruth {
  import opened Prelude
  import Stats
  import opened Timeline

  /** Every reading is what the accumulator held after the first at[i] packets of one log. Which moments
      were sampled, and which samples got through, is arbitrary. */
  ghost predicate ReadFrom(events: seq<Event>, log: seq<Uint64>, at: seq<nat>) {
    && |at| == |events|
    && (forall i, j | 0 <= i < j < |at| :: at[i] <= at[j])
    && (forall i | 0 <= i < |at| :: at[i] <= |log| && ReadAt(events[i], log[..at[i]]))
  }

  predicate ReadAt(e: Event, seen: seq<Uint64>) {
    e.Stream? ==> e.s.recv == Stats.Run(seen).recv && e.s.lost == Stats.Run(seen).lost
  }

  lemma {:induction false} RecvGrows(log: seq<Uint64>, m: nat, n: nat)
    requires m <= n <= |log|
    ensures Stats.Run(log[..m]).recv <= Stats.Run(log[..n]).recv
    decreases n
  {
    if m < n {
      RecvGrows(log, m, n - 1);
      assert Front(log[..n]) == log[..n - 1];
    }
  }

  lemma {:induction false} LatestWasRead(events: seq<Event>, log: seq<Uint64>, at: seq<nat>, i: nat, n: nat)
    requires ReadFrom(events, log, at) && i <= |events| && n <= |log|
    requires forall j | 0 <= j < i :: at[j] <= n
    ensures Latest(events[..i]).recv <= Stats.Run(log[..n]).recv
    decreases i
  {
    hide Stats.Run;
    if i == 0 {
    } else if events[i - 1].Stream? {
      assert Last(events[..i]) == events[i - 1];
      assert ReadAt(events[i - 1], log[..at[i - 1]]);
      RecvGrows(log, at[i - 1], n);
    } else {
      assert Front(events[..i]) == events[..i - 1];
      LatestWasRead(events, log, at, i - 1, n);
    }
  }

  lemma {:induction false} ReadingsAreCumulative(events: seq<Event>, log: seq<Uint64>, at: seq<nat>)
    requires ReadFrom(events, log, at)
    ensures Cumulative(events)
  {
    hide Latest, Stats.Run;
    forall i | 0 <= i < |events| && events[i].Stream?
      ensures events[i].s.lost >= 0 && events[i].s.recv >= Latest(events[..i]).recv
    {
      assert ReadAt(events[i], log[..at[i]]);
      LatestWasRead(events, log, at, i, at[i]);
    }
  }

  /** Packets to timeline: when the newest reading covers the whole log, nothing was reset, and the
      duplicate set never filled, the buckets add up to the packets that arrived and the packets that
      did not. */
  lemma {:induction false} TimelineIsTruth(events: seq<Event>, log: seq<Uint64>, at: seq<nat>)
    requires ReadFrom(events, log, at) && Reset !in events
    requires events != [] && Last(events).Stream? && Last(at) == |log|
    requires |Elems(Stats.Accepted(log))| <= Stats.MAX_SEEN_ENTRIES
    ensures var cells := Run(events).cells;
            && Ascending(cells) && AllFair(cells)
            && TotalRecv(cells) == |Elems(Stats.Accepted(log))|
            && TotalLost(cells) == |Stats.Missing(Stats.Accepted(log))|
  {
    hide Stats.Run, Ascending, AllFair, TotalRecv, TotalLost, Stats.Missing, Stats.Accepted;
    ReadingsAreCumulative(events, log, at);
    NoResetIsExact(events);
    Stats.ExactBelowCap(log);
    assert log[..|log|] == log;
    assert ReadAt(Last(events), log[..at[|at| - 1]]);
  }
}
