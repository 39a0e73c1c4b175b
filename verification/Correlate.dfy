/** Which hops misbehave while the stream loses packets (internal/agg/correlate.go). */
module Correlate {
  import opened Prelude
  import opened Sorting
  import opened ProbeTable
  import opened AggregatorState
  import opened Quantiles

  /** What one correlator reads of a bucket: its stream loss, and its ICMP or its TCP table. */
  datatype Sample = Sample(lossPct: real, hops: seq<HopView>)

  datatype Source = Unnamed | Icmp | Tcp | IcmpAndTcp

  datatype Suspect = Suspect(ttl: int, confidence: real, source: Source)

  // ------------------------------------------------------------------
  // Loss events
  // ------------------------------------------------------------------

  function Losses(buckets: seq<Sample>): seq<real> {
    seq(|buckets|, i requires 0 <= i < |buckets| => buckets[i].lossPct)
  }

  function Threshold(buckets: seq<Sample>): real { MaxReal(1.0, Percentile(Losses(buckets), 0.95)) }

  function EventsAmong(buckets: seq<Sample>, threshold: real): seq<Sample> {
    if buckets == [] then []
    else EventsAmong(Front(buckets), threshold) + if Last(buckets).lossPct >= threshold then [Last(buckets)] else []
  }

  function Events(buckets: seq<Sample>): seq<Sample> { EventsAmong(buckets, Threshold(buckets)) }

  lemma {:induction false} EventsAmongMeaning(buckets: seq<Sample>, threshold: real)
    ensures forall b :: b in EventsAmong(buckets, threshold) <==> b in buckets && b.lossPct >= threshold
  {
    if buckets != [] {
      EventsAmongMeaning(Front(buckets), threshold);
      assert buckets == Front(buckets) + [Last(buckets)];
    }
  }

  /** There is something to correlate exactly when some second lost at least one percent. */
  lemma {:induction false} EventsIff(buckets: seq<Sample>)
    ensures Events(buckets) != [] <==> exists i :: 0 <= i < |buckets| && buckets[i].lossPct >= 1.0
  {
    EventsAmongMeaning(buckets, Threshold(buckets));
    if Events(buckets) != [] {
      assert Events(buckets)[0] in buckets;
    }
    if i: int :| 0 <= i < |buckets| && buckets[i].lossPct >= 1.0 {
      var w := Worst(buckets);
      PercentileAtMost(buckets, buckets[w].lossPct);
      assert buckets[w] in Events(buckets);
    }
  }

  lemma {:induction false} Worst(buckets: seq<Sample>) returns (w: nat)
    requires buckets != []
    ensures w < |buckets| && forall i | 0 <= i < |buckets| :: buckets[i].lossPct <= buckets[w].lossPct
  {
    w := |buckets| - 1;
    if |buckets| > 1 {
      var v := Worst(Front(buckets));
      if buckets[v].lossPct >= buckets[w].lossPct {
        w := v;
      }
    }
  }

  lemma {:induction false} Least(values: seq<real>) returns (least: real)
    ensures forall x | x in values :: least <= x
  {
    least := 0.0;
    if values != [] {
      var l := Least(Front(values));
      least := if Last(values) < l then Last(values) else l;
      assert values == Front(values) + [Last(values)];
    }
  }

  lemma PercentileAtMost(buckets: seq<Sample>, most: real)
    requires buckets != [] && forall i | 0 <= i < |buckets| :: buckets[i].lossPct <= most
    ensures Percentile(Losses(buckets), 0.95) <= most
  {
    var least := Least(Losses(buckets));
    forall x | x in Losses(buckets)
      ensures x <= most
    {
      var i :| 0 <= i < |buckets| && Losses(buckets)[i] == x;
    }
    PercentileInRange(Losses(buckets), 0.95, least, most);
  }

  lemma {:induction false} HigherCountsFewer(s: seq<real>, t: real, u: real)
    requires t <= u
    ensures CountAbove(s, u) <= CountAbove(s, t)
  {
    if s != [] {
      HigherCountsFewer(Front(s), t, u);
    }
  }

  /** Only the worst twentieth of the seconds can lie strictly above the threshold. */
  lemma FewAboveThreshold(buckets: seq<Sample>)
    requires buckets != []
    ensures CountAbove(Losses(buckets), Threshold(buckets))
            <= |buckets| - 1 - (0.95 * (|buckets| - 1) as real).Floor
  {
    FewAbovePercentile(Losses(buckets), 0.95);
    HigherCountsFewer(Losses(buckets), Percentile(Losses(buckets), 0.95), Threshold(buckets));
  }

  // ------------------------------------------------------------------
  // Scoring
  // ------------------------------------------------------------------

  /** The baseline mean + 3 sigma is positive; sigma is the non-negative root of the variance. */
  predicate HasBaseline(h: HopStat) { h.avgRTT > 0.0 || h.avgRTT * h.avgRTT < 9.0 * h.variance }

  predicate Spikes(lastRTT: real, h: HopStat) {
    lastRTT > h.avgRTT && (lastRTT - h.avgRTT) * (lastRTT - h.avgRTT) > 9.0 * h.variance
  }

  lemma SquareOrder(a: real, b: real)
    requires a >= 0.0 && b >= 0.0
    ensures a * a > b * b <==> a > b
  {
    var d, e := a - b, a + b;
    assert d * e == a * a - b * b;
    if a > b {
      assert d * e > 0.0;
    } else {
      var m := b - a;
      assert m * e >= 0.0;
      assert m * e == b * b - a * a;
    }
  }

  lemma TripleSquare(sigma: real, variance: real)
    requires sigma * sigma == variance
    ensures (3.0 * sigma) * (3.0 * sigma) == 9.0 * variance
  {
  }

  /** The squared tests are the source's comparisons with the standard deviation. */
  lemma SpikeMeaning(h: HopStat, lastRTT: real, sigma: real)
    requires sigma >= 0.0 && sigma * sigma == h.variance
    ensures HasBaseline(h) <==> h.avgRTT + 3.0 * sigma > 0.0
    ensures Spikes(lastRTT, h) <==> lastRTT > h.avgRTT + 3.0 * sigma
  {
    TripleSquare(sigma, h.variance);
    if lastRTT > h.avgRTT {
      SquareOrder(lastRTT - h.avgRTT, 3.0 * sigma);
    }
    if h.avgRTT <= 0.0 {
      SquareOrder(3.0 * sigma, -h.avgRTT);
      assert (-h.avgRTT) * (-h.avgRTT) == h.avgRTT * h.avgRTT;
    }
  }

  predicate Responsive(h: HopView) { h.stat.addr.Some? }

  /** A responsive hop further down loses clearly less, so this one cannot be dropping the data. */
  predicate RateLimited(hops: seq<HopView>, i: nat)
    requires i < |hops|
  {
    && hops[i].stat.lossPct >= 5.0
    && exists j :: i < j < |hops| && Responsive(hops[j]) && hops[j].stat.lossPct + 5.0 < hops[i].stat.lossPct
  }

  datatype Signal = RttSpike | HopLoss

  predicate Hit(row: HopView, h: HopView, suppressLoss: bool, sig: Signal) {
    && row.stat.ttl == h.stat.ttl
    && match sig
       case RttSpike => HasBaseline(h.stat) && Spikes(row.stat.lastRTT, h.stat)
       case HopLoss => !suppressLoss && row.stat.lossPct > 1.0
  }

  function RowHits(rows: seq<HopView>, h: HopView, suppressLoss: bool, sig: Signal): nat {
    if rows == [] then 0
    else RowHits(Front(rows), h, suppressLoss, sig) + if Hit(Last(rows), h, suppressLoss, sig) then 1 else 0
  }

  function EventHits(events: seq<Sample>, h: HopView, suppressLoss: bool, sig: Signal): nat {
    if events == [] then 0
    else EventHits(Front(events), h, suppressLoss, sig) + RowHits(Last(events).hops, h, suppressLoss, sig)
  }

  /** The responsive row that scores a TTL: the last one carrying it. */
  function Scorer(hops: seq<HopView>, n: nat, ttl: int): (k: Option<nat>)
    requires n <= |hops|
    ensures k.Some? ==> k.value < n && Responsive(hops[k.value]) && hops[k.value].stat.ttl == ttl
    ensures k == None ==> forall i | 0 <= i < n && Responsive(hops[i]) :: hops[i].stat.ttl != ttl
  {
    if n == 0 then None
    else if Responsive(hops[n - 1]) && hops[n - 1].stat.ttl == ttl then Some(n - 1)
    else Scorer(hops, n - 1, ttl)
  }

  function HitsOf(events: seq<Sample>, hops: seq<HopView>, k: nat): nat
    requires k < |hops|
  {
    Max(EventHits(events, hops[k], RateLimited(hops, k), RttSpike),
        EventHits(events, hops[k], RateLimited(hops, k), HopLoss))
  }

  function ConfidenceOf(events: seq<Sample>, hops: seq<HopView>, k: nat): real
    requires k < |hops| && events != []
  {
    HitsOf(events, hops, k) as real / |events| as real
  }

  /** The verdicts on the first n hops, in table order. */
  function Flagged(events: seq<Sample>, hops: seq<HopView>, source: Source, n: nat): seq<Suspect>
    requires n <= |hops| && events != []
  {
    if n == 0 then []
    else
      var rest := Flagged(events, hops, source, n - 1);
      match Scorer(hops, |hops|, hops[n - 1].stat.ttl)
      case None => rest
      case Some(k) =>
        var conf := ConfidenceOf(events, hops, k);
        if conf <= 0.5 then rest else rest + [Suspect(hops[n - 1].stat.ttl, conf, source)]
  }

  const BY_CONFIDENCE: (Suspect, Suspect) -> bool := (x: Suspect, y: Suspect) => x.confidence > y.confidence

  function Correlated(buckets: seq<Sample>, hops: seq<HopView>, source: Source): seq<Suspect> {
    if Events(buckets) == [] then [] else Sort(Flagged(Events(buckets), hops, source, |hops|), BY_CONFIDENCE)
  }

  // ------------------------------------------------------------------
  // The source's loops
  // ------------------------------------------------------------------

  method RateLimitedICMP(hops: seq<HopView>, i: nat) returns (r: bool)
    requires i < |hops|
    ensures r == RateLimited(hops, i)
  {
    var src := hops[i];
    if src.stat.lossPct < 5.0 {
      return false;
    }
    for j := i + 1 to |hops|
      invariant forall m | i < m < j :: !(Responsive(hops[m]) && hops[m].stat.lossPct + 5.0 < src.stat.lossPct)
    {
      var d := hops[j];
      if d.stat.addr == None {
        continue;
      }
      if d.stat.lossPct + 5.0 < src.stat.lossPct {
        return true;
      }
    }
    return false;
  }

  datatype Score = Score(rttHits: nat, lossHits: nat, hop: HopView, suppressLoss: bool)

  /** The tally of one scorer after some whole events and part of the next one's rows. */
  function Tally(hops: seq<HopView>, k: nat, done: seq<Sample>, rows: seq<HopView>): Score
    requires k < |hops|
  {
    var h, sup := hops[k], RateLimited(hops, k);
    Score(EventHits(done, h, sup, RttSpike) + RowHits(rows, h, sup, RttSpike),
          EventHits(done, h, sup, HopLoss) + RowHits(rows, h, sup, HopLoss), h, sup)
  }

  ghost predicate Tallied(
      scores: map<int, Score>, hops: seq<HopView>, n: nat, done: seq<Sample>, rows: seq<HopView>)
    requires n <= |hops|
  {
    && (forall ttl :: ttl in scores <==> Scorer(hops, n, ttl).Some?)
    && (forall ttl | ttl in scores :: scores[ttl] == Tally(hops, Scorer(hops, n, ttl).value, done, rows))
  }

  method ScoreHops(hops: seq<HopView>) returns (scores: map<int, Score>)
    ensures Tallied(scores, hops, |hops|, [], [])
  {
    scores := map[];
    for i := 0 to |hops|
      invariant Tallied(scores, hops, i, [], [])
    {
      var h := hops[i];
      if h.stat.addr != None {
        var sup := RateLimitedICMP(hops, i);
        scores := scores[h.stat.ttl := Score(0, 0, h, sup)];
      }
    }
  }

  lemma TallyRow(hops: seq<HopView>, k: nat, done: seq<Sample>, rows: seq<HopView>, row: HopView)
    requires k < |hops|
    ensures var s, sup := Tally(hops, k, done, rows), RateLimited(hops, k);
            Tally(hops, k, done, rows + [row])
            == Score(s.rttHits + (if Hit(row, hops[k], sup, RttSpike) then 1 else 0),
                     s.lossHits + (if Hit(row, hops[k], sup, HopLoss) then 1 else 0), hops[k], sup)
  {
    assert Front(rows + [row]) == rows;
  }

  lemma TallyEvent(hops: seq<HopView>, k: nat, done: seq<Sample>, event: Sample)
    requires k < |hops|
    ensures Tally(hops, k, done + [event], []) == Tally(hops, k, done, event.hops)
  {
    assert Front(done + [event]) == done;
  }

  /** One row of one event, booked on the hop it belongs to. */
  method BookRow(scores: map<int, Score>, row: HopView, ghost hops: seq<HopView>, ghost done: seq<Sample>,
                 ghost rows: seq<HopView>)
      returns (after: map<int, Score>)
    requires Tallied(scores, hops, |hops|, done, rows)
    ensures Tallied(after, hops, |hops|, done, rows + [row])
  {
    hide Tally, Scorer;
    forall ttl | ttl in scores
      ensures var k := Scorer(hops, |hops|, ttl).value;
              hops[k].stat.ttl == ttl && Tally(hops, k, done, rows).hop == hops[k]
              && Tally(hops, k, done, rows).suppressLoss == RateLimited(hops, k)
    {
      var k := Scorer(hops, |hops|, ttl).value;
      TallyIs(hops, k, done, rows);
      TallyRow(hops, k, done, rows, row);
    }
    after := scores;
    if row.stat.ttl in scores {
      var sc := scores[row.stat.ttl];
      if HasBaseline(sc.hop.stat) && Spikes(row.stat.lastRTT, sc.hop.stat) {
        sc := sc.(rttHits := sc.rttHits + 1);
      }
      if !sc.suppressLoss && row.stat.lossPct > 1.0 {
        sc := sc.(lossHits := sc.lossHits + 1);
      }
      after := scores[row.stat.ttl := sc];
    }
    forall ttl | ttl in after
      ensures after[ttl] == Tally(hops, Scorer(hops, |hops|, ttl).value, done, rows + [row])
    {
      TallyRow(hops, Scorer(hops, |hops|, ttl).value, done, rows, row);
    }
  }

  lemma TallyIs(hops: seq<HopView>, k: nat, done: seq<Sample>, rows: seq<HopView>)
    requires k < |hops|
    ensures Tally(hops, k, done, rows).hop == hops[k]
    ensures Tally(hops, k, done, rows).suppressLoss == RateLimited(hops, k)
  {
  }

  method CountHits(events: seq<Sample>, hops: seq<HopView>) returns (scores: map<int, Score>)
    ensures Tallied(scores, hops, |hops|, events, [])
  {
    hide Tally, Scorer;
    scores := ScoreHops(hops);
    for e := 0 to |events|
      invariant Tallied(scores, hops, |hops|, events[..e], [])
    {
      var rows := events[e].hops;
      for r := 0 to |rows|
        invariant Tallied(scores, hops, |hops|, events[..e], rows[..r])
      {
        scores := BookRow(scores, rows[r], hops, events[..e], rows[..r]);
        assert rows[..r + 1] == rows[..r] + [rows[r]];
      }
      assert rows[..|rows|] == rows;
      assert events[..e + 1] == events[..e] + [events[e]];
      forall ttl | ttl in scores
        ensures scores[ttl] == Tally(hops, Scorer(hops, |hops|, ttl).value, events[..e + 1], [])
      {
        TallyEvent(hops, Scorer(hops, |hops|, ttl).value, events[..e], events[e]);
      }
    }
    assert events[..|events|] == events;
  }

  method LossEvents(buckets: seq<Sample>) returns (events: seq<Sample>)
    ensures events == Events(buckets)
  {
    var threshold := MaxReal(1.0, Percentile(Losses(buckets), 0.95));
    events := [];
    for i := 0 to |buckets|
      invariant events == EventsAmong(buckets[..i], threshold)
    {
      assert Front(buckets[..i + 1]) == buckets[..i] && Last(buckets[..i + 1]) == buckets[i];
      if buckets[i].lossPct >= threshold {
        events := events + [buckets[i]];
      }
    }
    assert buckets[..|buckets|] == buckets;
  }

  /** The shared body of the ICMP and the TCP correlator. */
  method CorrelateImpl(buckets: seq<Sample>, finalHops: seq<HopView>, source: Source) returns (out: seq<Suspect>)
    ensures out == Correlated(buckets, finalHops, source)
  {
    hide Tally, Events, Scorer;
    if |buckets| == 0 || |finalHops| == 0 {
      NothingToCorrelate(buckets, finalHops, source);
      return [];
    }
    var events := LossEvents(buckets);
    if |events| == 0 {
      return [];
    }
    var scores := CountHits(events, finalHops);
    out := [];
    for i := 0 to |finalHops|
      invariant out == Flagged(events, finalHops, source, i)
    {
      var ttl := finalHops[i].stat.ttl;
      if ttl !in scores {
        continue;
      }
      ghost var k := Scorer(finalHops, |finalHops|, ttl).value;
      var sc := scores[ttl];
      TallyHits(events, finalHops, k);
      var hits := sc.rttHits;
      if sc.lossHits > hits {
        hits := sc.lossHits;
      }
      var conf := hits as real / |events| as real;
      if conf <= 0.5 {
        continue;
      }
      out := out + [Suspect(ttl, conf, source)];
    }
    out := Sort(out, BY_CONFIDENCE);
  }

  lemma TallyHits(events: seq<Sample>, hops: seq<HopView>, k: nat)
    requires k < |hops|
    ensures var t := Tally(hops, k, events, []); HitsOf(events, hops, k) == Max(t.rttHits, t.lossHits)
  {
  }

  lemma NothingToCorrelate(buckets: seq<Sample>, hops: seq<HopView>, source: Source)
    requires buckets == [] || hops == []
    ensures Correlated(buckets, hops, source) == []
  {
  }

  // ------------------------------------------------------------------
  // What a verdict means
  // ------------------------------------------------------------------

  ghost predicate UniqueTTLs(rows: seq<HopView>) {
    forall i, j | 0 <= i < j < |rows| :: rows[i].stat.ttl != rows[j].stat.ttl
  }

  /** The loss events during which the signal was present. */
  ghost function Present(events: seq<Sample>, h: HopView, suppressLoss: bool, sig: Signal): set<nat> {
    set e: nat | e < |events| && ShownIn(events[e].hops, h, suppressLoss, sig)
  }

  ghost predicate ShownIn(rows: seq<HopView>, h: HopView, suppressLoss: bool, sig: Signal) {
    exists i :: 0 <= i < |rows| && Hit(rows[i], h, suppressLoss, sig)
  }

  lemma {:induction false} RowHitsOnce(rows: seq<HopView>, h: HopView, sup: bool, sig: Signal)
    requires UniqueTTLs(rows)
    ensures RowHits(rows, h, sup, sig) == if ShownIn(rows, h, sup, sig) then 1 else 0
  {
    if rows != [] {
      RowHitsOnce(Front(rows), h, sup, sig);
      if Hit(Last(rows), h, sup, sig) {
        assert !ShownIn(Front(rows), h, sup, sig);
      } else if i: int :| 0 <= i < |rows| && Hit(rows[i], h, sup, sig) {
        assert Hit(Front(rows)[i], h, sup, sig);
      } else {
        assert forall i | 0 <= i < |rows| - 1 :: Front(rows)[i] == rows[i];
      }
    }
  }

  lemma NonePresent(h: HopView, sup: bool, sig: Signal)
    ensures |Present([], h, sup, sig)| == 0
  {
    assert Present([], h, sup, sig) == {};
  }

  lemma PresentGrows(events: seq<Sample>, h: HopView, sup: bool, sig: Signal)
    requires events != []
    ensures |Present(events, h, sup, sig)|
         == |Present(Front(events), h, sup, sig)| + (if ShownIn(Last(events).hops, h, sup, sig) then 1 else 0)
  {
    hide ShownIn;
    var p, q, n := Present(events, h, sup, sig), Present(Front(events), h, sup, sig), |events| - 1;
    forall e: nat
      ensures e in q <==> e in p && e != n
    {
      if e < n {
        assert Front(events)[e] == events[e];
      }
    }
    assert n in p <==> ShownIn(Last(events).hops, h, sup, sig);
    assert p == if n in p then q + {n} else q;
  }

  /** Counted row by row, but with one row per TTL the hits are seconds. */
  lemma {:induction false} EventHitsMeaning(events: seq<Sample>, h: HopView, sup: bool, sig: Signal)
    requires forall e | 0 <= e < |events| :: UniqueTTLs(events[e].hops)
    ensures EventHits(events, h, sup, sig) == |Present(events, h, sup, sig)| <= |events|
  {
    hide UniqueTTLs, ShownIn, Present;
    if events == [] {
      NonePresent(h, sup, sig);
    } else {
      EventHitsMeaning(Front(events), h, sup, sig);
      RowHitsOnce(Last(events).hops, h, sup, sig);
      PresentGrows(events, h, sup, sig);
    }
  }

  lemma {:induction false} ScorerIsOwn(hops: seq<HopView>, n: nat, i: nat)
    requires UniqueTTLs(hops) && i < n <= |hops|
    ensures Scorer(hops, n, hops[i].stat.ttl) == if Responsive(hops[i]) then Some(i) else None
  {
    var k := Scorer(hops, n, hops[i].stat.ttl);
    if k.Some? {
      assert hops[k.value].stat.ttl == hops[i].stat.ttl;
    }
  }

  /** The correlator's verdict on hop i, in the terms of its documentation. */
  ghost predicate Guilty(buckets: seq<Sample>, hops: seq<HopView>, i: nat)
    requires i < |hops|
  {
    var events, sup := Events(buckets), RateLimited(hops, i);
    && Responsive(hops[i])
    && (|| 2 * |Present(events, hops[i], sup, RttSpike)| > |events|
        || 2 * |Present(events, hops[i], sup, HopLoss)| > |events|)
  }

  function Entry(events: seq<Sample>, hops: seq<HopView>, source: Source, i: nat): Suspect
    requires i < |hops| && events != []
  {
    Suspect(hops[i].stat.ttl, ConfidenceOf(events, hops, i), source)
  }

  ghost predicate OnePerTTL(buckets: seq<Sample>, hops: seq<HopView>) {
    UniqueTTLs(hops) && forall b: Sample | b in buckets :: UniqueTTLs(b.hops)
  }

  lemma OverHalf(hits: nat, events: nat)
    requires events > 0
    ensures hits as real / events as real > 0.5 <==> 2 * hits > events
    ensures hits <= events ==> hits as real / events as real <= 1.0
  {
    HalfAndWhole(hits as real, events as real);
  }

  lemma HalfAndWhole(a: real, b: real)
    requires b > 0.0
    ensures a / b > 0.5 <==> 2.0 * a > b
    ensures a <= b ==> a / b <= 1.0
  {
    var x := a / b;
    assert x * b == a;
    var y, z := x - 0.5, x - 1.0;
    assert y * b == a - 0.5 * b && z * b == a - b;
    if x > 0.5 {
      assert y * b > 0.0;
    }
    if x > 1.0 {
      assert z * b > 0.0;
    }
  }

  lemma EventsUnique(buckets: seq<Sample>, hops: seq<HopView>)
    requires OnePerTTL(buckets, hops)
    ensures forall e | 0 <= e < |Events(buckets)| :: UniqueTTLs(Events(buckets)[e].hops)
  {
    EventsAmongMeaning(buckets, Threshold(buckets));
    forall e | 0 <= e < |Events(buckets)|
      ensures UniqueTTLs(Events(buckets)[e].hops)
    {
      assert Events(buckets)[e] in buckets;
    }
  }

  /** Confidence is the fraction of loss events in which the stronger signal was present. */
  lemma ConfidenceMeaning(buckets: seq<Sample>, hops: seq<HopView>, i: nat)
    requires OnePerTTL(buckets, hops) && i < |hops| && Responsive(hops[i]) && Events(buckets) != []
    ensures ConfidenceOf(Events(buckets), hops, i) > 0.5 <==> Guilty(buckets, hops, i)
    ensures ConfidenceOf(Events(buckets), hops, i) <= 1.0
  {
    var events, sup := Events(buckets), RateLimited(hops, i);
    EventsUnique(buckets, hops);
    EventHitsMeaning(events, hops[i], sup, RttSpike);
    EventHitsMeaning(events, hops[i], sup, HopLoss);
    OverHalf(HitsOf(events, hops, i), |events|);
  }

  lemma {:induction false} FlaggedMeaning(buckets: seq<Sample>, hops: seq<HopView>, source: Source, n: nat)
    requires OnePerTTL(buckets, hops) && n <= |hops| && Events(buckets) != []
    ensures forall s :: s in Flagged(Events(buckets), hops, source, n) <==>
              exists i :: 0 <= i < n && Guilty(buckets, hops, i) && s == Entry(Events(buckets), hops, source, i)
  {
    hide Guilty, OnePerTTL, Events, ConfidenceOf;
    if n > 0 {
      FlaggedMeaning(buckets, hops, source, n - 1);
      assert UniqueTTLs(hops) by {
        TablesUnique(buckets, hops);
      }
      ScorerIsOwn(hops, |hops|, n - 1);
      if Responsive(hops[n - 1]) {
        ConfidenceMeaning(buckets, hops, n - 1);
      } else {
        SilentIsInnocent(buckets, hops, n - 1);
      }
    }
  }

  lemma TablesUnique(buckets: seq<Sample>, hops: seq<HopView>)
    requires OnePerTTL(buckets, hops)
    ensures UniqueTTLs(hops)
  {
  }

  lemma SilentIsInnocent(buckets: seq<Sample>, hops: seq<HopView>, i: nat)
    requires i < |hops| && !Responsive(hops[i])
    ensures !Guilty(buckets, hops, i)
  {
  }

  lemma ByConfidenceIsOrder()
    ensures IsOrder(BY_CONFIDENCE)
  {
  }

  /** With one row per TTL: the verdicts are exactly the hops whose stronger signal was present in more
      than half of the loss events, each with a confidence in (0.5, 1], strongest first. */
  lemma {:induction false} CorrelatedMeaning(buckets: seq<Sample>, hops: seq<HopView>, source: Source)
    requires OnePerTTL(buckets, hops) && Events(buckets) != []
    ensures var out := Correlated(buckets, hops, source);
            && (forall s :: s in out <==>
                  exists i :: 0 <= i < |hops| && Guilty(buckets, hops, i)
                              && s == Entry(Events(buckets), hops, source, i))
            && (forall s | s in out :: 0.5 < s.confidence <= 1.0)
            && (forall i, j | 0 <= i < j < |out| :: out[i].confidence >= out[j].confidence)
  {
    hide Guilty, Flagged, Events, OnePerTTL, ConfidenceOf;
    FlaggedMeaning(buckets, hops, source, |hops|);
    var f, out := Flagged(Events(buckets), hops, source, |hops|), Correlated(buckets, hops, source);
    SortPermutes(f, BY_CONFIDENCE);
    SameElements(f, out);
    ByConfidenceIsOrder();
    SortOrders(f, BY_CONFIDENCE);
    forall i, j | 0 <= i < j < |out|
      ensures out[i].confidence >= out[j].confidence
    {
      assert !BY_CONFIDENCE(out[j], out[i]);
    }
    forall s | s in out
      ensures 0.5 < s.confidence <= 1.0
    {
      var i :| 0 <= i < |hops| && Guilty(buckets, hops, i) && s == Entry(Events(buckets), hops, source, i);
      GuiltyResponds(buckets, hops, i);
      ConfidenceMeaning(buckets, hops, i);
    }
  }

  const TTL_OF: Suspect -> int := (s: Suspect) => s.ttl

  ghost predicate InTableOrder(s: seq<Suspect>) { forall i, j | 0 <= i < j < |s| :: TTL_OF(s[i]) < TTL_OF(s[j]) }

  ghost predicate AtMost(s: seq<Suspect>, ttl: int) { forall i | 0 <= i < |s| :: s[i].ttl <= ttl }

  ghost predicate AscendingTable(hops: seq<HopView>) {
    forall i, j | 0 <= i < j < |hops| :: hops[i].stat.ttl < hops[j].stat.ttl
  }

  lemma TableOrderAppend(s: seq<Suspect>, x: Suspect, ttl: int)
    requires InTableOrder(s) && AtMost(s, ttl) && ttl < x.ttl
    ensures InTableOrder(s + [x]) && AtMost(s + [x], x.ttl) && AtMost(s, x.ttl)
  {
  }

  lemma {:induction false} FlaggedInTableOrder(events: seq<Sample>, hops: seq<HopView>, source: Source, n: nat)
    requires n <= |hops| && events != [] && AscendingTable(hops)
    ensures InTableOrder(Flagged(events, hops, source, n))
    ensures AtMost(Flagged(events, hops, source, n), if n == 0 then 0 else hops[n - 1].stat.ttl)
  {
    hide Scorer, ConfidenceOf, InTableOrder, AtMost;
    if n == 0 {
      NothingFlagged();
    } else {
      FlaggedInTableOrder(events, hops, source, n - 1);
      var rest, ttl := Flagged(events, hops, source, n - 1), hops[n - 1].stat.ttl;
      var k := Scorer(hops, |hops|, ttl);
      var x := Suspect(ttl, if k == None then 0.0 else ConfidenceOf(events, hops, k.value), source);
      if n == 1 {
        OneInTableOrder(x);
        NothingFlagged();
        assert rest == [] && rest + [x] == [x];
      } else {
        TableOrderAppend(rest, x, hops[n - 2].stat.ttl);
      }
    }
  }

  lemma NothingFlagged()
    ensures InTableOrder([]) && AtMost([], 0)
  {
  }

  lemma OneInTableOrder(x: Suspect)
    ensures InTableOrder([x]) && AtMost([x], x.ttl) && AtMost([], x.ttl)
  {
  }

  /** Equally confident verdicts on an ascending table stay in TTL order. */
  lemma {:induction false} TiesInTableOrder(buckets: seq<Sample>, hops: seq<HopView>, source: Source)
    requires AscendingTable(hops)
    ensures OrderedStably(Correlated(buckets, hops, source), BY_CONFIDENCE, TTL_OF)
  {
    hide Flagged, Events;
    if Events(buckets) != [] {
      ByConfidenceIsOrder();
      FlaggedInTableOrder(Events(buckets), hops, source, |hops|);
      SortStable(Flagged(Events(buckets), hops, source, |hops|), BY_CONFIDENCE, TTL_OF);
    }
  }

  lemma GuiltyResponds(buckets: seq<Sample>, hops: seq<HopView>, i: nat)
    requires i < |hops| && Guilty(buckets, hops, i)
    ensures Responsive(hops[i])
  {
  }
}
