/** Which second of the timeline a reading is booked on (internal/agg/aggregator.go). */
module TimelineSeconds {
  import opened Prelude
  import opened Timeline
  import AggregatorState

  /** What the timeline shows for one second. */
  ghost function Bucket(cells: seq<Cell>, k: int): Cell {
    if exists i :: 0 <= i < |cells| && cells[i].t == k then
      var i :| 0 <= i < |cells| && cells[i].t == k;
      cells[i]
    else Cell(k, 0, 0, 0.0)
  }

  /** A reading belongs to the second it was taken in; one taken before the start belongs to the first. */
  ghost predicate InSecond(t: real, k: int) {
    (k >= 0 && k as real <= t < (k + 1) as real) || (k == 0 && t < 0.0)
  }

  lemma InSecondMeaning(t: real, k: int)
    ensures InSecond(t, k) <==> k == Second(t)
  {
  }

  lemma BucketAt(cells: seq<Cell>, i: nat)
    requires Ascending(cells) && i < |cells|
    ensures Bucket(cells, cells[i].t) == cells[i]
  {
  }

  lemma {:induction false} EnsuredBuckets(cells: seq<Cell>, idx: int, k: int)
    requires Ascending(cells)
    ensures Bucket(Ensured(cells, idx), k) == Bucket(cells, k)
  {
    hide Place;
    EnsuredAscends(cells, idx);
    if !Present(cells, idx) {
      var i, c, r := Place(cells, idx), Cell(idx, 0, 0, 0.0), Ensured(cells, idx);
      PlaceMeaning(cells, idx);
      PlacedAt(cells, i, c);
      if j :| 0 <= j < |cells| && cells[j].t == k {
        BucketAt(cells, j);
        BucketAt(r, if j < i then j else j + 1);
      } else if k == idx {
        BucketAt(r, i);
      } else {
        assert forall j | 0 <= j < |r| :: r[j].t != k;
      }
    }
  }

  /** One changed bucket. */
  lemma ChangedBucket(cells: seq<Cell>, i: nat, c: Cell, k: int)
    requires Ascending(cells) && i < |cells| && c.t == cells[i].t
    ensures Bucket(cells[i := c], k) == if k == c.t then c else Bucket(cells, k)
  {
    var r := cells[i := c];
    if j :| 0 <= j < |cells| && cells[j].t == k {
      BucketAt(cells, j);
      BucketAt(r, j);
    } else {
      assert r[i].t == c.t;
      assert forall j | 0 <= j < |r| :: r[j].t != k;
    }
  }

  /** A reading whose loss did not fall changes the bucket of its own second and no other. */
  lemma ReadingLandsOnItsSecond(l: Line, s: Reading, k: int)
    requires Ascending(l.cells) && (l.last.Some? ==> s.lost >= l.last.value.lost && s.recv >= l.last.value.recv)
    requires l.last == None ==> s.lost >= 0
    ensures var was, now := Bucket(l.cells, k), Bucket(IngestStream(l, s).cells, k);
            var p := if l.last.Some? then l.last.value else Reading(0.0, 0, 0);
            if InSecond(s.t, k)
            then now.recv == was.recv + (s.recv - p.recv) && now.lost == was.lost + (s.lost - p.lost)
            else now == was
  {
    hide Ensured, Percent, Bucket, Ascending;
    var idx := Second(s.t);
    var e, i := Ensured(l.cells, idx), Place(l.cells, idx);
    var (dRecv, dLost) := Delta(l.last, s);
    EnsuredAscends(l.cells, idx);
    EnsuredBuckets(l.cells, idx, k);
    InSecondMeaning(s.t, k);
    var c := Priced(Cell(idx, e[i].recv + dRecv, e[i].lost + dLost, e[i].lossPct));
    assert Added(e, i, dRecv, dLost) == e[i := c];
    BucketAt(e, i);
    ChangedBucket(e, i, c, k);
  }

  /** Receptions land on the reading's own second whatever happened to the losses; losses are only taken
      back, and from a second k only when every later second j has none left. */
  lemma CorrectionTakesNewestFirst(l: Line, s: Reading, k: int, j: int)
    requires Ascending(l.cells) && AllFair(l.cells) && k < j
    requires l.last.Some? && s.lost < l.last.value.lost && s.recv >= l.last.value.recv
    ensures var r := IngestStream(l, s).cells;
            var was, now := Bucket(l.cells, k), Bucket(r, k);
            && now.recv == was.recv + (if InSecond(s.t, k) then s.recv - l.last.value.recv else 0)
            && 0 <= now.lost <= was.lost
            && (now.lost < was.lost ==> Bucket(r, j).lost == 0)
  {
    hide Ensured, Percent, Bucket, Ascending, AllFair, FairExcept;
    var idx := Second(s.t);
    var e, i := Ensured(l.cells, idx), Place(l.cells, idx);
    var (dRecv, dLost) := Delta(l.last, s);
    EnsuredAscends(l.cells, idx);
    EnsuredFair(l.cells, idx);
    EnsuredBuckets(l.cells, idx, k);
    InSecondMeaning(s.t, k);
    ReceivedFair(e, i, dRecv);
    var got := e[i := e[i].(recv := e[i].recv + dRecv)];
    BucketAt(e, i);
    ChangedBucket(e, i, got[i], k);
    UnwoundBuckets(got, i, -dLost, k, j);
  }

  /** The unwound losses, then one bucket's percentage. */
  function Unwound(got: seq<Cell>, i: nat, n: int): (now: seq<Cell>)
    requires i < |got|
    ensures |now| == |got|
  {
    Unwind(got, n)[i := Priced(Unwind(got, n)[i])]
  }

  ghost predicate Taken(was: seq<Cell>, now: seq<Cell>)
    requires |was| == |now|
  {
    && (forall i | 0 <= i < |was| ::
          now[i].t == was[i].t && now[i].recv == was[i].recv && 0 <= now[i].lost <= was[i].lost)
    && (forall i, j | 0 <= i < j < |was| && now[i].lost < was[i].lost :: now[j].lost == 0)
  }

  lemma CutTakes(was: seq<Cell>, now: seq<Cell>, k: nat)
    requires |was| == |now| && CutAt(was, now, k) && AllFair(was)
    ensures Taken(was, now)
  {
    hide Percent;
  }

  lemma UnwoundTakes(got: seq<Cell>, i: nat, n: nat)
    requires i < |got| && FairExcept(got, i)
    ensures Taken(got, Unwound(got, i, n))
  {
    hide Percent, Unwind, CutAt;
    var fair := got[i := Priced(got[i])];
    UnwindPrices(got, i, n);
    var k := UnwindCut(fair, n);
    CutTakes(fair, Unwind(fair, n), k);
  }

  lemma UnwoundBuckets(got: seq<Cell>, i: nat, n: nat, k: int, j: int)
    requires Ascending(got) && i < |got| && FairExcept(got, i) && k < j
    ensures var now := Unwound(got, i, n);
            && Bucket(now, k).recv == Bucket(got, k).recv && 0 <= Bucket(now, k).lost <= Bucket(got, k).lost
            && (Bucket(now, k).lost < Bucket(got, k).lost ==> Bucket(now, j).lost == 0)
  {
    hide Unwound, Bucket, FairExcept;
    UnwoundTakes(got, i, n);
    var now := Unwound(got, i, n);
    assert Ascending(now) && forall x | 0 <= x < |got| :: now[x].t == got[x].t;
    BucketsAlike(got, now, k);
    BucketsAlike(got, now, j);
  }

  /** Two timelines with the same seconds show a second at the same place, or both not at all. */
  lemma BucketsAlike(cells: seq<Cell>, now: seq<Cell>, k: int)
    requires Ascending(cells) && Ascending(now) && |now| == |cells|
    requires forall x | 0 <= x < |cells| :: now[x].t == cells[x].t
    ensures (exists x :: 0 <= x < |cells| && cells[x].t == k
                         && Bucket(cells, k) == cells[x] && Bucket(now, k) == now[x])
            || Bucket(cells, k) == Bucket(now, k) == Cell(k, 0, 0, 0.0)
  {
    if x :| 0 <= x < |cells| && cells[x].t == k {
      BucketAt(cells, x);
      BucketAt(now, x);
    }
  }

  // ------------------------------------------------------------------
  // Whole runs
  // ------------------------------------------------------------------

  /** What the readings of second k since the last reset report as newly received. */
  ghost function RecvIn(events: seq<Event>, k: int): int {
    if events == [] then 0
    else
      match Last(events)
      case Reset => 0
      case Stream(s) =>
        RecvIn(Front(events), k) + if InSecond(s.t, k) then s.recv - Latest(Front(events)).recv else 0
      case Hops(_) => RecvIn(Front(events), k)
  }

  /** What they report as newly lost, corrections left out. */
  ghost function LostIn(events: seq<Event>, k: int): int {
    if events == [] then 0
    else
      match Last(events)
      case Reset => 0
      case Stream(s) =>
        LostIn(Front(events), k) + if InSecond(s.t, k) then Max(0, s.lost - Latest(Front(events)).lost) else 0
      case Hops(_) => LostIn(Front(events), k)
  }

  /** No late packet has taken a loss back since the last reset. */
  predicate Uncorrected(events: seq<Event>) {
    events != [] && Last(events) != Reset ==>
      && Uncorrected(Front(events))
      && (Last(events).Stream? ==> Last(events).s.lost >= Latest(Front(events)).lost)
  }

  ghost predicate SecondTold(c: Cell, events: seq<Event>, k: int) {
    && c.recv == RecvIn(events, k)
    && 0 <= c.lost <= LostIn(events, k)
    && (Uncorrected(events) ==> c.lost == LostIn(events, k))
  }

  lemma CumulativeFront(events: seq<Event>)
    requires Cumulative(events) && events != []
    ensures Cumulative(Front(events))
    ensures Last(events).Stream? ==>
              Last(events).s.lost >= 0 && Last(events).s.recv >= Latest(Front(events)).recv
  {
    var f := Front(events);
    forall i | 0 <= i < |f| && f[i].Stream?
      ensures f[i].s.lost >= 0 && f[i].s.recv >= Latest(f[..i]).recv
    {
      assert f[..i] == events[..i] && f[i] == events[i];
    }
    assert events[..|f|] == f;
  }

  /** Over every run: each second shows what its own readings reported as received, and at most what they
      reported as lost; exactly that when nothing was corrected. */
  lemma {:induction false} SecondsHoldTheirReadings(events: seq<Event>, k: int)
    requires Cumulative(events)
    ensures SecondTold(Bucket(Run(events).cells, k), events, k)
  {
    hide Cumulative, IngestStream, Ensured, Bucket, Ascending, AllFair, Consistent;
    if events == [] || Last(events) == Reset {
      NothingBooked(k);
    } else {
      var f, e := Front(events), Last(events);
      CumulativeFront(events);
      SecondsHoldTheirReadings(f, k);
      var low := TimelineConserves(f);
      ConsistentParts(Run(f), f, low);
      match e
      case Hops(elapsed) => EnsuredBuckets(Run(f).cells, Second(elapsed), k);
      case Stream(s) =>
        if s.lost >= Latest(f).lost {
          ReadingLandsOnItsSecond(Run(f), s, k);
        } else {
          CorrectionTakesNewestFirst(Run(f), s, k, k + 1);
        }
    }
  }

  lemma NothingBooked(k: int)
    ensures Bucket([], k) == Cell(k, 0, 0, 0.0)
  {
  }

  lemma ConsistentParts(l: Line, events: seq<Event>, low: int)
    requires Consistent(l, events, low) && Cumulative(events)
    ensures Ascending(l.cells) && AllFair(l.cells) && Latest(events).lost >= 0
    ensures if l.last == None then Latest(events) == Reading(0.0, 0, 0) else l.last == Some(Latest(events))
  {
    LostNotNegative(events, |events|);
    assert events[..|events|] == events;
  }

  /** So for everything the aggregator publishes, whatever else it ingests in between. */
  lemma PublishedSeconds(ops: seq<AggregatorState.Op>, i: nat)
    requires Cumulative(AggregatorState.Project(ops)) && i < |AggregatorState.ApplyAll(ops).line.cells|
    ensures var c := AggregatorState.ApplyAll(ops).line.cells[i];
            SecondTold(c, AggregatorState.Project(ops), c.t)
  {
    hide SecondTold, Bucket, Ascending, Consistent;
    var events := AggregatorState.Project(ops);
    AggregatorState.LineIsTimeline(ops);
    var low := TimelineConserves(events);
    ConsistentParts(Run(events), events, low);
    var c := Run(events).cells[i];
    SecondsHoldTheirReadings(events, c.t);
    BucketAt(Run(events).cells, i);
  }

  /** The percentage of a bucket is its lost share of what was sent in it. */
  lemma PercentMeaning(lost: nat, recv: nat)
    ensures Percent(lost, recv) * (recv + lost) as real == 100.0 * lost as real
    ensures recv + lost == 0 ==> Percent(lost, recv) == 0.0
    ensures 0.0 <= Percent(lost, recv) <= 100.0
  {
    if recv + lost > 0 {
      var n := (recv + lost) as real;
      var q := lost as real / n;
      assert q * n == lost as real;
      assert q < 0.0 ==> q * n < 0.0;
      assert q > 1.0 ==> q * n > n;
    }
  }
}
