/** The end-of-test verdict: correlate, merge, mark (cmd/dropline/trace.go). */
module EndOfTest {
  import opened Prelude
  import opened Sorting
  import opened AggregatorState
  import opened Correlate
  import opened Verdicts

  function IcmpSamples(st: State): seq<Sample>
    requires WellFormed(st)
  {
    seq(|st.tables|, i requires 0 <= i < |st.tables| => Sample(st.line.cells[i].lossPct, st.tables[i].icmp))
  }

  function TcpSamples(st: State): seq<Sample>
    requires WellFormed(st)
  {
    seq(|st.tables|, i requires 0 <= i < |st.tables| => Sample(st.line.cells[i].lossPct, st.tables[i].tcp))
  }

  function IcmpVerdicts(st: State): seq<Suspect>
    requires WellFormed(st)
  {
    Correlated(IcmpSamples(st), st.hops, Icmp)
  }

  /** The TCP correlator only runs when the TCP prober was on and supported. */
  function TcpVerdicts(st: State, tcpOn: bool): seq<Suspect>
    requires WellFormed(st)
  {
    if tcpOn then Correlated(TcpSamples(st), st.tcpHops, Tcp) else []
  }

  function Merged(st: State, tcpOn: bool): map<int, Suspect>
    requires WellFormed(st)
  {
    MergeTable(IcmpVerdicts(st), TcpVerdicts(st, tcpOn))
  }

  /** The aggregator after building the report. */
  function Reported(st: State, tcpOn: bool): (r: State)
    requires WellFormed(st)
    ensures WellFormed(r)
  {
    var m := Merged(st, tcpOn);
    Apply(Apply(st, MarkSuspects(MarkedFor(m, Icmp))), MarkTcpSuspects(MarkedFor(m, Tcp)))
  }

  // ------------------------------------------------------------------
  // Exactly the guilty are marked
  // ------------------------------------------------------------------

  lemma {:induction false} FlaggedOnePer(events: seq<Sample>, hops: seq<HopView>, source: Source, n: nat)
    requires UniqueTTLs(hops) && n <= |hops| && events != []
    ensures var f := Flagged(events, hops, source, n);
            && OnePer(f) && From(f, source)
            && (forall s | s in f :: exists i :: 0 <= i < n && hops[i].stat.ttl == s.ttl)
  {
    hide ConfidenceOf, Scorer;
    if n > 0 {
      FlaggedOnePer(events, hops, source, n - 1);
    }
  }

  lemma {:induction false} CorrelatedOnePer(buckets: seq<Sample>, hops: seq<HopView>, source: Source)
    requires UniqueTTLs(hops)
    ensures OnePer(Correlated(buckets, hops, source)) && From(Correlated(buckets, hops, source), source)
  {
    hide Events, Flagged;
    if Events(buckets) != [] {
      FlaggedOnePer(Events(buckets), hops, source, |hops|);
      var f, out := Flagged(Events(buckets), hops, source, |hops|), Correlated(buckets, hops, source);
      SortPermutes(f, BY_CONFIDENCE);
      OnePerPermutes(f, out);
      SameElements(f, out);
      forall i | 0 <= i < |out|
        ensures out[i].source == source || out[i].source == Unnamed
      {
        assert out[i] in f;
      }
    }
  }

  lemma OnePerNeverRepeats(s: seq<Suspect>)
    requires OnePer(s)
    ensures forall ttl :: !Repeated(s, ttl)
  {
  }

  lemma NoEventsNoVerdicts(buckets: seq<Sample>, hops: seq<HopView>, source: Source)
    requires Events(buckets) == []
    ensures Correlated(buckets, hops, source) == []
  {
  }

  ghost predicate Convicted(buckets: seq<Sample>, hops: seq<HopView>, i: nat)
    requires i < |hops|
  {
    Events(buckets) != [] && Guilty(buckets, hops, i)
  }

  /** The merge neither drops a verdict nor leaks one into the other table. */
  lemma {:induction false} MergedKeepsSources(st: State, tcpOn: bool)
    requires WellFormed(st) && UniqueTTLs(st.hops) && UniqueTTLs(st.tcpHops)
    ensures MarkedFor(Merged(st, tcpOn), Icmp) == TTLs(IcmpVerdicts(st))
    ensures MarkedFor(Merged(st, tcpOn), Tcp) == TTLs(TcpVerdicts(st, tcpOn))
  {
    hide Correlated, MarkedFor, TTLs, MergeTable, Repeated;
    CorrelatedOnePer(IcmpSamples(st), st.hops, Icmp);
    CorrelatedOnePer(TcpSamples(st), st.tcpHops, Tcp);
    var tcp := TcpVerdicts(st, tcpOn);
    OnePerNeverRepeats(tcp);
    MergeRoundTrip(IcmpVerdicts(st), tcp);
  }

  /** What marking a set of TTLs does to one table. */
  ghost predicate FlaggedExactly(was: seq<HopView>, now: seq<HopView>, ttls: set<int>) {
    |was| == |now| && forall i | 0 <= i < |was| ::
      now[i] == was[i].(suspect := was[i].suspect || was[i].stat.ttl in ttls)
  }

  lemma MarkedExactly(hs: seq<HopView>, ttls: set<int>)
    ensures FlaggedExactly(hs, Marked(hs, ttls), ttls)
  {
  }

  /** Building the report flags the TTLs of each correlator's verdicts, and nothing else, in the live table of
      that kind and in that kind of table of every bucket. */
  lemma {:induction false} ReportMarksTheVerdicts(st: State, tcpOn: bool)
    requires WellFormed(st) && UniqueTTLs(st.hops) && UniqueTTLs(st.tcpHops)
    ensures var r, icmp, tcp := Reported(st, tcpOn), TTLs(IcmpVerdicts(st)), TTLs(TcpVerdicts(st, tcpOn));
            && FlaggedExactly(st.hops, r.hops, icmp) && FlaggedExactly(st.tcpHops, r.tcpHops, tcp)
            && r.line == st.line && |r.tables| == |st.tables|
            && forall b | 0 <= b < |st.tables| ::
                 && FlaggedExactly(st.tables[b].icmp, r.tables[b].icmp, icmp)
                 && FlaggedExactly(st.tables[b].tcp, r.tables[b].tcp, tcp)
  {
    hide Correlated, Merged, MarkedFor, TTLs, UniqueTTLs, IcmpSamples, TcpSamples, Marked, FlaggedExactly;
    MergedKeepsSources(st, tcpOn);
    var icmp, tcp := TTLs(IcmpVerdicts(st)), TTLs(TcpVerdicts(st, tcpOn));
    MarkedExactly(st.hops, icmp);
    MarkedExactly(st.tcpHops, tcp);
    forall b | 0 <= b < |st.tables|
      ensures FlaggedExactly(st.tables[b].icmp, Marked(st.tables[b].icmp, icmp), icmp)
      ensures FlaggedExactly(st.tables[b].tcp, Marked(st.tables[b].tcp, tcp), tcp)
    {
      MarkedExactly(st.tables[b].icmp, icmp);
      MarkedExactly(st.tables[b].tcp, tcp);
    }
  }

  /** The TTLs of the convicted hops of a live table. */
  ghost predicate AreConvicted(ttls: set<int>, buckets: seq<Sample>, hops: seq<HopView>) {
    forall ttl :: ttl in ttls <==> exists i :: 0 <= i < |hops| && hops[i].stat.ttl == ttl && Convicted(buckets, hops, i)
  }

  lemma {:induction false} VerdictsAreConvicted(buckets: seq<Sample>, hops: seq<HopView>, source: Source)
    requires OnePerTTL(buckets, hops)
    ensures AreConvicted(TTLs(Correlated(buckets, hops, source)), buckets, hops)
  {
    hide Guilty, Events, Correlated, ConfidenceOf;
    forall ttl
      ensures ttl in TTLs(Correlated(buckets, hops, source))
              <==> exists i :: 0 <= i < |hops| && hops[i].stat.ttl == ttl && Convicted(buckets, hops, i)
    {
      if Events(buckets) == [] {
        NoEventsNoVerdicts(buckets, hops, source);
      } else {
        CorrelatedMeaning(buckets, hops, source);
        if s :| s in Correlated(buckets, hops, source) && s.ttl == ttl {
          var k :| 0 <= k < |hops| && Guilty(buckets, hops, k) && s == Entry(Events(buckets), hops, source, k);
          assert hops[k].stat.ttl == ttl && Convicted(buckets, hops, k);
        }
        if i: int :| 0 <= i < |hops| && hops[i].stat.ttl == ttl && Convicted(buckets, hops, i) {
          assert Entry(Events(buckets), hops, source, i) in Correlated(buckets, hops, source);
        }
      }
    }
  }

  /** So a hop's row, in the live table or in any bucket, is flagged by the report exactly when the correlator
      of its kind convicts the hop. */
  lemma {:induction false} ReportMarksTheGuilty(st: State, tcpOn: bool)
    requires WellFormed(st)
    requires OnePerTTL(IcmpSamples(st), st.hops) && OnePerTTL(TcpSamples(st), st.tcpHops)
    ensures var r, icmp, tcp := Reported(st, tcpOn), TTLs(IcmpVerdicts(st)), TTLs(TcpVerdicts(st, tcpOn));
            && AreConvicted(icmp, IcmpSamples(st), st.hops)
            && (if tcpOn then AreConvicted(tcp, TcpSamples(st), st.tcpHops) else tcp == {})
            && FlaggedExactly(st.hops, r.hops, icmp) && FlaggedExactly(st.tcpHops, r.tcpHops, tcp)
            && |r.tables| == |st.tables|
            && forall b | 0 <= b < |st.tables| ::
                 && FlaggedExactly(st.tables[b].icmp, r.tables[b].icmp, icmp)
                 && FlaggedExactly(st.tables[b].tcp, r.tables[b].tcp, tcp)
  {
    assert UniqueTTLs(st.hops) && UniqueTTLs(st.tcpHops);
    hide Correlated, Reported, UniqueTTLs, IcmpSamples, TcpSamples, FlaggedExactly, AreConvicted, OnePerTTL;
    ReportMarksTheVerdicts(st, tcpOn);
    VerdictsAreConvicted(IcmpSamples(st), st.hops, Icmp);
    VerdictsAreConvicted(TcpSamples(st), st.tcpHops, Tcp);
  }

  // ------------------------------------------------------------------
  // Building the report twice is building it once
  // ------------------------------------------------------------------

  /** The same rows but for the suspect flags. */
  ghost predicate SameRows(r: seq<HopView>, s: seq<HopView>) {
    |r| == |s| && forall i | 0 <= i < |r| :: r[i].stat == s[i].stat
  }

  ghost predicate SameSamples(a: seq<Sample>, b: seq<Sample>) {
    |a| == |b| && forall i | 0 <= i < |a| :: a[i].lossPct == b[i].lossPct && SameRows(a[i].hops, b[i].hops)
  }

  lemma {:induction false} RowHitsIgnoreFlags(
      r: seq<HopView>, s: seq<HopView>, h: HopView, g: HopView, sup: bool, sig: Signal)
    requires SameRows(r, s) && h.stat == g.stat
    ensures RowHits(r, h, sup, sig) == RowHits(s, g, sup, sig)
  {
    if r != [] {
      RowHitsIgnoreFlags(Front(r), Front(s), h, g, sup, sig);
    }
  }

  lemma {:induction false} EventHitsIgnoreFlags(
      a: seq<Sample>, b: seq<Sample>, h: HopView, g: HopView, sup: bool, sig: Signal)
    requires SameSamples(a, b) && h.stat == g.stat
    ensures EventHits(a, h, sup, sig) == EventHits(b, g, sup, sig)
  {
    hide SameRows;
    if a != [] {
      EventHitsIgnoreFlags(Front(a), Front(b), h, g, sup, sig);
      RowHitsIgnoreFlags(Last(a).hops, Last(b).hops, h, g, sup, sig);
    }
  }

  lemma {:induction false} EventsIgnoreFlags(a: seq<Sample>, b: seq<Sample>, threshold: real)
    requires SameSamples(a, b)
    ensures SameSamples(EventsAmong(a, threshold), EventsAmong(b, threshold))
  {
    hide SameRows;
    if a != [] {
      EventsIgnoreFlags(Front(a), Front(b), threshold);
    }
  }

  lemma {:induction false} ScorerIgnoresFlags(r: seq<HopView>, s: seq<HopView>, n: nat, ttl: int)
    requires SameRows(r, s) && n <= |r|
    ensures Scorer(r, n, ttl) == Scorer(s, n, ttl)
  {
    if n > 0 {
      ScorerIgnoresFlags(r, s, n - 1, ttl);
    }
  }

  lemma ConfidenceIgnoresFlags(a: seq<Sample>, b: seq<Sample>, r: seq<HopView>, s: seq<HopView>, k: nat)
    requires SameSamples(a, b) && SameRows(r, s) && k < |r| && a != []
    ensures ConfidenceOf(a, r, k) == ConfidenceOf(b, s, k)
  {
    hide SameSamples;
    assert RateLimited(r, k) == RateLimited(s, k);
    EventHitsIgnoreFlags(a, b, r[k], s[k], RateLimited(r, k), RttSpike);
    EventHitsIgnoreFlags(a, b, r[k], s[k], RateLimited(r, k), HopLoss);
    assert |a| == |b| by {
      SameLength(a, b);
    }
  }

  lemma SameLength(a: seq<Sample>, b: seq<Sample>)
    requires SameSamples(a, b)
    ensures |a| == |b|
  {
  }

  lemma {:induction false} FlaggedIgnoresFlags(
      a: seq<Sample>, b: seq<Sample>, r: seq<HopView>, s: seq<HopView>, source: Source, n: nat)
    requires SameSamples(a, b) && SameRows(r, s) && n <= |r| && a != []
    ensures Flagged(a, r, source, n) == Flagged(b, s, source, n)
  {
    hide SameSamples, ConfidenceOf, Scorer;
    SameLength(a, b);
    if n > 0 {
      FlaggedIgnoresFlags(a, b, r, s, source, n - 1);
      ScorerIgnoresFlags(r, s, |r|, r[n - 1].stat.ttl);
      var k := Scorer(r, |r|, r[n - 1].stat.ttl);
      if k.Some? {
        ConfidenceIgnoresFlags(a, b, r, s, k.value);
      }
    }
  }

  /** The correlator never reads its own verdicts. */
  lemma {:induction false} CorrelatedIgnoresFlags(
      a: seq<Sample>, b: seq<Sample>, r: seq<HopView>, s: seq<HopView>, source: Source)
    requires SameSamples(a, b) && SameRows(r, s)
    ensures Correlated(a, r, source) == Correlated(b, s, source)
  {
    hide SameRows, Flagged;
    assert Losses(a) == Losses(b);
    EventsIgnoreFlags(a, b, Threshold(a));
    SameLength(Events(a), Events(b));
    if Events(a) != [] {
      FlaggedIgnoresFlags(Events(a), Events(b), r, s, source, |r|);
      assert |r| == |s| by {
        SameRowCount(r, s);
      }
    }
  }

  lemma SameRowCount(r: seq<HopView>, s: seq<HopView>)
    requires SameRows(r, s)
    ensures |r| == |s|
  {
  }

  lemma MarkingKeepsRows(st: State, icmp: set<int>, tcp: set<int>)
    requires WellFormed(st)
    ensures var r := Apply(Apply(st, MarkSuspects(icmp)), MarkTcpSuspects(tcp));
            && SameRows(st.hops, r.hops) && SameRows(st.tcpHops, r.tcpHops)
            && SameSamples(IcmpSamples(st), IcmpSamples(r)) && SameSamples(TcpSamples(st), TcpSamples(r))
  {
  }

  lemma MarkedTwice(hs: seq<HopView>, ttls: set<int>)
    ensures Marked(Marked(hs, ttls), ttls) == Marked(hs, ttls)
  {
  }

  lemma TablesMarkedTwice(ts: seq<Tables>, icmp: set<int>, tcp: set<int>)
    ensures var once := MarkedTcp(MarkedIcmp(ts, icmp), tcp);
            MarkedTcp(MarkedIcmp(once, icmp), tcp) == once
  {
    hide Marked;
    var once := MarkedTcp(MarkedIcmp(ts, icmp), tcp);
    var twice := MarkedTcp(MarkedIcmp(once, icmp), tcp);
    forall i | 0 <= i < |ts|
      ensures twice[i] == once[i]
    {
      MarkedTwice(ts[i].icmp, icmp);
      MarkedTwice(ts[i].tcp, tcp);
    }
  }

  /** Building the report again, on the state it has already marked, changes nothing. */
  lemma {:induction false} ReportIsIdempotent(st: State, tcpOn: bool)
    requires WellFormed(st)
    ensures Merged(Reported(st, tcpOn), tcpOn) == Merged(st, tcpOn)
    ensures Reported(Reported(st, tcpOn), tcpOn) == Reported(st, tcpOn)
  {
    hide Correlated, SameSamples, SameRows, IcmpSamples, TcpSamples;
    hide Marked, MarkedIcmp, MarkedTcp, MarkedFor, MergeTable;
    var m := Merged(st, tcpOn);
    var icmp, tcp := MarkedFor(m, Icmp), MarkedFor(m, Tcp);
    var r := Reported(st, tcpOn);
    MarkingKeepsRows(st, icmp, tcp);
    CorrelatedIgnoresFlags(IcmpSamples(st), IcmpSamples(r), st.hops, r.hops, Icmp);
    CorrelatedIgnoresFlags(TcpSamples(st), TcpSamples(r), st.tcpHops, r.tcpHops, Tcp);
    MarkedTwice(st.hops, icmp);
    MarkedTwice(st.tcpHops, tcp);
    TablesMarkedTwice(st.tables, icmp, tcp);
  }
}
