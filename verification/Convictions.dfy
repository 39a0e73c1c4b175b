/** The verdicts in plain terms: which seconds speak against a hop, and how many it takes
    (internal/agg/correlate.go, cmd/dropline/trace.go). */
module Convictions {
  import opened Prelude
  import opened ProbeTable
  import opened AggregatorState
  import opened Quantiles
  import opened Correlate
  import opened Verdicts
  import EndOfTest

  // ------------------------------------------------------------------
  // Evidence
  // ------------------------------------------------------------------

  /** The seconds with at least one percent stream loss that are also at or above the 95th percentile. */
  ghost function EventSeconds(losses: seq<real>): set<int> {
    set b | 0 <= b < |losses| && losses[b] >= 1.0 && losses[b] >= Percentile(losses, 0.95)
  }

  /** In this second's table the hop's round trip was more than three deviations above its mean. */
  ghost predicate SpikesIn(rows: seq<HopView>, h: HopStat, sigma: real) {
    exists r :: 0 <= r < |rows| && rows[r].stat.ttl == h.ttl
                && h.avgRTT + 3.0 * sigma > 0.0 && rows[r].stat.lastRTT > h.avgRTT + 3.0 * sigma
  }

  /** In this second's table the hop had lost more than one percent. */
  ghost predicate LosesIn(rows: seq<HopView>, h: HopStat) {
    exists r :: 0 <= r < |rows| && rows[r].stat.ttl == h.ttl && rows[r].stat.lossPct > 1.0
  }

  /** The hop ends at five percent or more, and some later hop that answers ends over five points lower. */
  ghost predicate Contradicted(hops: seq<HopView>, i: nat)
    requires i < |hops|
  {
    && hops[i].stat.lossPct >= 5.0
    && exists j :: i < j < |hops| && hops[j].stat.addr != None && hops[j].stat.lossPct + 5.0 < hops[i].stat.lossPct
  }

  ghost function SpikeSeconds(losses: seq<real>, tables: seq<seq<HopView>>, h: HopStat, sigma: real): set<int>
    requires |tables| == |losses|
  {
    set b | b in EventSeconds(losses) && SpikesIn(tables[b], h, sigma)
  }

  ghost function LossSeconds(losses: seq<real>, tables: seq<seq<HopView>>, h: HopStat): set<int>
    requires |tables| == |losses|
  {
    set b | b in EventSeconds(losses) && LosesIn(tables[b], h)
  }

  /** Hop i is to blame: it answers, and it spiked in more than half of the events or, if no later hop
      contradicts it, lost in more than half of them. */
  ghost predicate Blamed(losses: seq<real>, tables: seq<seq<HopView>>, hops: seq<HopView>, i: nat, sigma: real)
    requires |tables| == |losses| && i < |hops|
  {
    var h, n := hops[i].stat, |EventSeconds(losses)|;
    && h.addr != None
    && (|| 2 * |SpikeSeconds(losses, tables, h, sigma)| > n
        || (!Contradicted(hops, i) && 2 * |LossSeconds(losses, tables, h)| > n))
  }

  ghost function Strength(
      losses: seq<real>, tables: seq<seq<HopView>>, hops: seq<HopView>, i: nat, sigma: real): nat
    requires |tables| == |losses| && i < |hops|
  {
    var h := hops[i].stat;
    Max(|SpikeSeconds(losses, tables, h, sigma)|,
        if Contradicted(hops, i) then 0 else |LossSeconds(losses, tables, h)|)
  }

  // ------------------------------------------------------------------
  // The correlator goes by the evidence
  // ------------------------------------------------------------------

  function TablesOf(buckets: seq<Sample>): seq<seq<HopView>> {
    seq(|buckets|, b requires 0 <= b < |buckets| => buckets[b].hops)
  }

  /** The buckets at or above the threshold in which a signal shows. */
  ghost function ShowingAbove(buckets: seq<Sample>, threshold: real, h: HopView, sup: bool, sig: Signal): set<int> {
    set b | 0 <= b < |buckets| && buckets[b].lossPct >= threshold && ShownIn(buckets[b].hops, h, sup, sig)
  }

  lemma ShowingStep(buckets: seq<Sample>, threshold: real, h: HopView, sup: bool, sig: Signal)
    requires buckets != []
    ensures var now, was := ShowingAbove(buckets, threshold, h, sup, sig),
                            ShowingAbove(Front(buckets), threshold, h, sup, sig);
            |now| == |was| + (if Last(buckets).lossPct >= threshold && ShownIn(Last(buckets).hops, h, sup, sig)
                              then 1 else 0)
  {
    hide ShownIn;
    var n := |buckets| - 1;
    var now, was := ShowingAbove(buckets, threshold, h, sup, sig),
                    ShowingAbove(Front(buckets), threshold, h, sup, sig);
    assert now == if n in now then was + {n} else was;
  }

  /** Counting events in which a signal shows is counting such seconds. */
  lemma {:induction false} PresentAmong(buckets: seq<Sample>, threshold: real, h: HopView, sup: bool, sig: Signal)
    ensures |Present(EventsAmong(buckets, threshold), h, sup, sig)|
         == |ShowingAbove(buckets, threshold, h, sup, sig)|
  {
    hide Present, ShownIn;
    if buckets == [] {
      NonePresent(h, sup, sig);
      assert ShowingAbove(buckets, threshold, h, sup, sig) == {};
    } else {
      PresentAmong(Front(buckets), threshold, h, sup, sig);
      ShowingStep(buckets, threshold, h, sup, sig);
      if Last(buckets).lossPct >= threshold {
        var events := EventsAmong(buckets, threshold);
        assert Front(events) == EventsAmong(Front(buckets), threshold) && Last(events) == Last(buckets);
        PresentGrows(events, h, sup, sig);
      } else {
        assert EventsAmong(buckets, threshold) == EventsAmong(Front(buckets), threshold);
      }
    }
  }

  ghost function SecondsAbove(buckets: seq<Sample>, threshold: real): set<int> {
    set b | 0 <= b < |buckets| && buckets[b].lossPct >= threshold
  }

  lemma {:induction false} EventsCount(buckets: seq<Sample>, threshold: real)
    ensures |EventsAmong(buckets, threshold)| == |SecondsAbove(buckets, threshold)|
  {
    if buckets == [] {
      assert SecondsAbove(buckets, threshold) == {};
    } else {
      EventsCount(Front(buckets), threshold);
      SecondsStep(buckets, threshold);
      hide SecondsAbove;
    }
  }

  lemma SecondsStep(buckets: seq<Sample>, threshold: real)
    requires buckets != []
    ensures |SecondsAbove(buckets, threshold)|
         == |SecondsAbove(Front(buckets), threshold)| + (if Last(buckets).lossPct >= threshold then 1 else 0)
  {
    var n, now, was := |buckets| - 1, SecondsAbove(buckets, threshold), SecondsAbove(Front(buckets), threshold);
    assert now == if n in now then was + {n} else was;
  }

  lemma EventSecondsAbove(buckets: seq<Sample>)
    ensures EventSeconds(Losses(buckets)) == SecondsAbove(buckets, Threshold(buckets))
  {
    hide Percentile;
  }

  lemma SpikesShown(rows: seq<HopView>, h: HopView, sup: bool, sigma: real)
    requires sigma >= 0.0 && sigma * sigma == h.stat.variance
    ensures ShownIn(rows, h, sup, RttSpike) <==> SpikesIn(rows, h.stat, sigma)
  {
    hide HasBaseline, Spikes;
    forall r | 0 <= r < |rows|
      ensures Hit(rows[r], h, sup, RttSpike)
              <==> rows[r].stat.ttl == h.stat.ttl && h.stat.avgRTT + 3.0 * sigma > 0.0
                   && rows[r].stat.lastRTT > h.stat.avgRTT + 3.0 * sigma
    {
      SpikeMeaning(h.stat, rows[r].stat.lastRTT, sigma);
    }
    if SpikesIn(rows, h.stat, sigma) {
      var r :| 0 <= r < |rows| && rows[r].stat.ttl == h.stat.ttl
               && h.stat.avgRTT + 3.0 * sigma > 0.0 && rows[r].stat.lastRTT > h.stat.avgRTT + 3.0 * sigma;
      assert Hit(rows[r], h, sup, RttSpike);
    }
  }

  lemma LossShown(rows: seq<HopView>, h: HopView, sup: bool)
    ensures ShownIn(rows, h, sup, HopLoss) <==> !sup && LosesIn(rows, h.stat)
  {
    if LosesIn(rows, h.stat) {
      var r :| 0 <= r < |rows| && rows[r].stat.ttl == h.stat.ttl && rows[r].stat.lossPct > 1.0;
      assert Hit(rows[r], h, sup, HopLoss) <==> !sup;
    }
  }

  lemma SpikesCounted(buckets: seq<Sample>, h: HopView, sup: bool, sigma: real)
    requires sigma >= 0.0 && sigma * sigma == h.stat.variance
    ensures |Present(Events(buckets), h, sup, RttSpike)|
         == |SpikeSeconds(Losses(buckets), TablesOf(buckets), h.stat, sigma)|
  {
    hide Present, ShownIn, SpikesIn, EventsAmong, EventSeconds;
    PresentAmong(buckets, Threshold(buckets), h, sup, RttSpike);
    EventSecondsAbove(buckets);
    forall b | 0 <= b < |buckets|
      ensures ShownIn(buckets[b].hops, h, sup, RttSpike) <==> SpikesIn(buckets[b].hops, h.stat, sigma)
    {
      SpikesShown(buckets[b].hops, h, sup, sigma);
    }
    assert ShowingAbove(buckets, Threshold(buckets), h, sup, RttSpike)
        == SpikeSeconds(Losses(buckets), TablesOf(buckets), h.stat, sigma);
  }

  lemma LossesCounted(buckets: seq<Sample>, h: HopView, sup: bool)
    ensures |Present(Events(buckets), h, sup, HopLoss)|
         == if sup then 0 else |LossSeconds(Losses(buckets), TablesOf(buckets), h.stat)|
  {
    hide Present, ShownIn, LosesIn, EventsAmong, EventSeconds;
    PresentAmong(buckets, Threshold(buckets), h, sup, HopLoss);
    EventSecondsAbove(buckets);
    forall b | 0 <= b < |buckets|
      ensures ShownIn(buckets[b].hops, h, sup, HopLoss) <==> !sup && LosesIn(buckets[b].hops, h.stat)
    {
      LossShown(buckets[b].hops, h, sup);
    }
    var showing := ShowingAbove(buckets, Threshold(buckets), h, sup, HopLoss);
    assert showing == if sup then {} else LossSeconds(Losses(buckets), TablesOf(buckets), h.stat);
  }

  lemma GuiltyIffBlamed(buckets: seq<Sample>, hops: seq<HopView>, i: nat, sigma: real)
    requires OnePerTTL(buckets, hops) && i < |hops| && sigma >= 0.0 && sigma * sigma == hops[i].stat.variance
    ensures |Events(buckets)| == |EventSeconds(Losses(buckets))|
    ensures Guilty(buckets, hops, i) <==> Blamed(Losses(buckets), TablesOf(buckets), hops, i, sigma)
    ensures HitsOf(Events(buckets), hops, i) == Strength(Losses(buckets), TablesOf(buckets), hops, i, sigma)
  {
    hide Present, SpikeSeconds, LossSeconds, EventSeconds, EventsAmong, EventHits;
    var sup := RateLimited(hops, i);
    assert sup <==> Contradicted(hops, i);
    EventsCount(buckets, Threshold(buckets));
    EventSecondsAbove(buckets);
    SpikesCounted(buckets, hops[i], sup, sigma);
    LossesCounted(buckets, hops[i], sup);
    EventsUnique(buckets, hops);
    EventHitsMeaning(Events(buckets), hops[i], sup, RttSpike);
    EventHitsMeaning(Events(buckets), hops[i], sup, HopLoss);
  }

  lemma NobodyBlamed(buckets: seq<Sample>, hops: seq<HopView>, i: nat, sigma: real)
    requires i < |hops| && |EventSeconds(Losses(buckets))| == 0
    ensures !Blamed(Losses(buckets), TablesOf(buckets), hops, i, sigma)
  {
    var losses, tables := Losses(buckets), TablesOf(buckets);
    SubsetCard(SpikeSeconds(losses, tables, hops[i].stat, sigma), EventSeconds(losses));
    SubsetCard(LossSeconds(losses, tables, hops[i].stat), EventSeconds(losses));
  }

  lemma ListedIsGuilty(buckets: seq<Sample>, hops: seq<HopView>, source: Source, i: nat)
    requires OnePerTTL(buckets, hops) && i < |hops| && Events(buckets) != []
    ensures var out := Correlated(buckets, hops, source);
            && (hops[i].stat.ttl in TTLs(out) <==> Guilty(buckets, hops, i))
            && (forall s | s in out && s.ttl == hops[i].stat.ttl ::
                  s == Correlate.Entry(Events(buckets), hops, source, i))
  {
    assert UniqueTTLs(hops) by {
      TablesUnique(buckets, hops);
    }
    hide Guilty, Correlated, OnePerTTL, Events, ConfidenceOf;
    CorrelatedMeaning(buckets, hops, source);
    var out := Correlated(buckets, hops, source);
    if Guilty(buckets, hops, i) {
      assert Correlate.Entry(Events(buckets), hops, source, i) in out;
    }
    forall s | s in out && s.ttl == hops[i].stat.ttl
      ensures Guilty(buckets, hops, i) && s == Correlate.Entry(Events(buckets), hops, source, i)
    {
      var k :| 0 <= k < |hops| && Guilty(buckets, hops, k) && s == Correlate.Entry(Events(buckets), hops, source, k);
      assert k == i;
    }
  }

  lemma ConfidenceTimes(events: seq<Sample>, hops: seq<HopView>, i: nat)
    requires i < |hops| && events != []
    ensures ConfidenceOf(events, hops, i) * |events| as real == HitsOf(events, hops, i) as real
  {
    hide HitsOf;
  }

  /** With one row per TTL the correlator lists exactly the hops the evidence blames, each with the share of
      events that its stronger evidence covers. */
  lemma VerdictIff(buckets: seq<Sample>, hops: seq<HopView>, source: Source, i: nat, sigma: real)
    requires OnePerTTL(buckets, hops) && i < |hops| && sigma >= 0.0 && sigma * sigma == hops[i].stat.variance
    ensures var losses, tables, out := Losses(buckets), TablesOf(buckets), Correlated(buckets, hops, source);
            && (hops[i].stat.ttl in TTLs(out) <==> Blamed(losses, tables, hops, i, sigma))
            && (forall s | s in out && s.ttl == hops[i].stat.ttl ::
                  s.source == source
                  && s.confidence * |EventSeconds(losses)| as real == Strength(losses, tables, hops, i, sigma) as real)
  {
    hide Blamed, Strength, Guilty, Correlated, EventSeconds, OnePerTTL, HitsOf, Events, ConfidenceOf;
    GuiltyIffBlamed(buckets, hops, i, sigma);
    if Events(buckets) == [] {
      NothingListed(buckets, hops, source);
      NobodyBlamed(buckets, hops, i, sigma);
    } else {
      ListedIsGuilty(buckets, hops, source, i);
      ConfidenceTimes(Events(buckets), hops, i);
    }
  }

  lemma NothingListed(buckets: seq<Sample>, hops: seq<HopView>, source: Source)
    requires Events(buckets) == []
    ensures Correlated(buckets, hops, source) == []
  {
  }

  // ------------------------------------------------------------------
  // The report flags by the evidence
  // ------------------------------------------------------------------

  function LineLosses(st: State): seq<real> {
    seq(|st.line.cells|, b requires 0 <= b < |st.line.cells| => st.line.cells[b].lossPct)
  }

  function TablesIn(st: State, tcp: bool): seq<seq<HopView>> {
    seq(|st.tables|, b requires 0 <= b < |st.tables| => if tcp then st.tables[b].tcp else st.tables[b].icmp)
  }

  /** One row per TTL in the live table and in every bucket's table of that kind. */
  ghost predicate TablesUniqueIn(st: State, tcp: bool) {
    && UniqueTTLs(if tcp then st.tcpHops else st.hops)
    && forall b | 0 <= b < |st.tables| :: UniqueTTLs(TablesIn(st, tcp)[b])
  }

  lemma SamplesOf(st: State)
    requires WellFormed(st)
    ensures Losses(EndOfTest.IcmpSamples(st)) == Losses(EndOfTest.TcpSamples(st)) == LineLosses(st)
    ensures TablesOf(EndOfTest.IcmpSamples(st)) == TablesIn(st, false)
    ensures TablesOf(EndOfTest.TcpSamples(st)) == TablesIn(st, true)
    ensures TablesUniqueIn(st, false) ==> OnePerTTL(EndOfTest.IcmpSamples(st), st.hops)
    ensures TablesUniqueIn(st, true) ==> OnePerTTL(EndOfTest.TcpSamples(st), st.tcpHops)
  {
    hide UniqueTTLs;
    var icmp, tcp := EndOfTest.IcmpSamples(st), EndOfTest.TcpSamples(st);
    assert forall b | 0 <= b < |st.tables| :: icmp[b].hops == TablesIn(st, false)[b];
    assert forall b | 0 <= b < |st.tables| :: tcp[b].hops == TablesIn(st, true)[b];
  }

  /** Building the report newly flags the hops of the live ICMP table that the evidence of the ICMP tables
      blames, and no other. */
  lemma ReportFlagsTheBlamed(st: State, tcpOn: bool, i: nat, sigma: real)
    requires WellFormed(st) && TablesUniqueIn(st, false) && TablesUniqueIn(st, true)
    requires i < |st.hops| && sigma >= 0.0 && sigma * sigma == st.hops[i].stat.variance
    ensures var r := EndOfTest.Reported(st, tcpOn);
            && |r.hops| == |st.hops| && r.hops[i].stat == st.hops[i].stat
            && (r.hops[i].suspect <==>
                  st.hops[i].suspect || Blamed(LineLosses(st), TablesIn(st, false), st.hops, i, sigma))
  {
    hide EndOfTest.Reported, Blamed, Correlated, UniqueTTLs, TTLs, OnePerTTL, EndOfTest.IcmpSamples;
    SamplesOf(st);
    EndOfTest.ReportMarksTheVerdicts(st, tcpOn);
    VerdictIff(EndOfTest.IcmpSamples(st), st.hops, Icmp, i, sigma);
  }

  /** The same for the TCP table, when the TCP prober was on. */
  lemma ReportFlagsTheBlamedTcp(st: State, i: nat, sigma: real)
    requires WellFormed(st) && TablesUniqueIn(st, false) && TablesUniqueIn(st, true)
    requires i < |st.tcpHops| && sigma >= 0.0 && sigma * sigma == st.tcpHops[i].stat.variance
    ensures var r := EndOfTest.Reported(st, true);
            && |r.tcpHops| == |st.tcpHops| && r.tcpHops[i].stat == st.tcpHops[i].stat
            && (r.tcpHops[i].suspect <==>
                  st.tcpHops[i].suspect || Blamed(LineLosses(st), TablesIn(st, true), st.tcpHops, i, sigma))
  {
    hide EndOfTest.Reported, Blamed, Correlated, UniqueTTLs, TTLs, OnePerTTL, EndOfTest.TcpSamples;
    SamplesOf(st);
    EndOfTest.ReportMarksTheVerdicts(st, true);
    VerdictIff(EndOfTest.TcpSamples(st), st.tcpHops, Tcp, i, sigma);
  }

  // ------------------------------------------------------------------
  // Two consequences
  // ------------------------------------------------------------------

  /** A hop that answers, is not contradicted and lost in more than half of the events is listed. */
  lemma SteadyLoserIsListed(buckets: seq<Sample>, hops: seq<HopView>, source: Source, i: nat, sigma: real)
    requires OnePerTTL(buckets, hops) && i < |hops| && sigma >= 0.0 && sigma * sigma == hops[i].stat.variance
    requires hops[i].stat.addr != None
    requires forall j | i < j < |hops| && hops[j].stat.addr != None ::
               hops[j].stat.lossPct + 5.0 >= hops[i].stat.lossPct
    requires 2 * |LossSeconds(Losses(buckets), TablesOf(buckets), hops[i].stat)| > |EventSeconds(Losses(buckets))|
    ensures exists s :: s in Correlated(buckets, hops, source) && s.ttl == hops[i].stat.ttl
  {
    hide Correlated, EventSeconds, LossSeconds, SpikeSeconds, OnePerTTL;
    VerdictIff(buckets, hops, source, i, sigma);
  }

  /** A router that only throttles its own replies is never listed for its loss. */
  lemma ThrottlerIsSpared(
      buckets: seq<Sample>, hops: seq<HopView>, source: Source, i: nat, j: nat, sigma: real)
    requires OnePerTTL(buckets, hops) && i < j < |hops| && sigma >= 0.0 && sigma * sigma == hops[i].stat.variance
    requires hops[i].stat.lossPct >= 5.0
    requires hops[j].stat.addr != None && hops[j].stat.lossPct + 5.0 < hops[i].stat.lossPct
    requires 2 * |SpikeSeconds(Losses(buckets), TablesOf(buckets), hops[i].stat, sigma)|
             <= |EventSeconds(Losses(buckets))|
    ensures forall s | s in Correlated(buckets, hops, source) :: s.ttl != hops[i].stat.ttl
  {
    hide Correlated, EventSeconds, LossSeconds, SpikeSeconds, OnePerTTL;
    VerdictIff(buckets, hops, source, i, sigma);
  }
}
