/** The per-second loss timeline as values: cumulative counters that may go down, split into one
    bucket per second (internal/agg/aggregator.go). */
module Timeline {
  import opened Prelude

  /** The stream side of one bucket. */
  datatype Cell = Cell(t: int, recv: int, lost: int, lossPct: real)

  /** The part of a receiver snapshot that the timeline uses. */
  datatype Reading = Reading(t: real, recv: int, lost: int)

  datatype Line = Line(cells: seq<Cell>, last: Option<Reading>)

  const EMPTY_LINE := Line([], None)

  function Percent(lost: int, recv: int): real {
    if recv + lost > 0 then lost as real / (recv + lost) as real * 100.0 else 0.0
  }

  function Priced(c: Cell): Cell { c.(lossPct := Percent(c.lost, c.recv)) }

  function Second(t: real): int { Max(0, t.Floor) }

  /** Where idx belongs: after every earlier second. */
  function Place(cells: seq<Cell>, idx: int): (i: nat)
    ensures i <= |cells|
  {
    if cells == [] then 0
    else if Last(cells).t < idx then |cells|
    else Place(Front(cells), idx)
  }

  predicate Present(cells: seq<Cell>, idx: int) {
    var i := Place(cells, idx);
    i < |cells| && cells[i].t == idx
  }

  /** The timeline with a bucket for idx. */
  function Ensured(cells: seq<Cell>, idx: int): (r: seq<Cell>)
    ensures Place(cells, idx) < |r| && r[Place(cells, idx)].t == idx
  {
    var i := Place(cells, idx);
    if Present(cells, idx) then cells else cells[..i] + [Cell(idx, 0, 0, 0.0)] + cells[i..]
  }

  /** Takes n losses back, newest bucket first. */
  function Unwind(cells: seq<Cell>, n: int): (r: seq<Cell>)
    ensures |r| == |cells|
  {
    if cells == [] || n <= 0 then cells
    else
      var c := Last(cells);
      if c.lost <= 0 then Unwind(Front(cells), n) + [c]
      else if c.lost >= n then Front(cells) + [Priced(c.(lost := c.lost - n))]
      else Unwind(Front(cells), n - c.lost) + [Priced(c.(lost := 0))]
  }

  function Delta(last: Option<Reading>, s: Reading): (int, int) {
    match last
    case None => (s.recv, s.lost)
    case Some(p) => (Max(0, s.recv - p.recv), s.lost - p.lost)
  }

  /** One reading's deltas booked on bucket i. */
  function Added(cells: seq<Cell>, i: nat, dRecv: int, dLost: int): seq<Cell>
    requires i < |cells|
  {
    var got := cells[i := cells[i].(recv := cells[i].recv + dRecv)];
    var charged := if dLost >= 0 then got[i := got[i].(lost := got[i].lost + dLost)] else Unwind(got, -dLost);
    charged[i := Priced(charged[i])]
  }

  function Charge(cells: seq<Cell>, idx: int, dRecv: int, dLost: int): seq<Cell> {
    Added(Ensured(cells, idx), Place(cells, idx), dRecv, dLost)
  }

  function IngestStream(l: Line, s: Reading): Line {
    var (dRecv, dLost) := Delta(l.last, s);
    Line(Charge(l.cells, Second(s.t), dRecv, dLost), Some(s))
  }

  // ------------------------------------------------------------------
  // Well-formed timelines
  // ------------------------------------------------------------------

  ghost predicate Ascending(cells: seq<Cell>) { forall i, j | 0 <= i < j < |cells| :: cells[i].t < cells[j].t }

  predicate Fair(c: Cell) { c.t >= 0 && c.recv >= 0 && c.lost >= 0 && c.lossPct == Percent(c.lost, c.recv) }

  ghost predicate AllFair(cells: seq<Cell>) { forall i | 0 <= i < |cells| :: Fair(cells[i]) }

  function Recvs(cells: seq<Cell>): seq<int> { seq(|cells|, i requires 0 <= i < |cells| => cells[i].recv) }

  function Losts(cells: seq<Cell>): seq<int> { seq(|cells|, i requires 0 <= i < |cells| => cells[i].lost) }

  function TotalRecv(cells: seq<Cell>): int { Sum(Recvs(cells)) }

  function TotalLost(cells: seq<Cell>): int { Sum(Losts(cells)) }

  lemma {:induction false} PlaceMeaning(cells: seq<Cell>, idx: int)
    requires Ascending(cells)
    ensures forall i | 0 <= i < |cells| :: cells[i].t < idx <==> i < Place(cells, idx)
  {
    if cells != [] && Last(cells).t >= idx {
      PlaceMeaning(Front(cells), idx);
    }
  }

  /** Only one position separates the earlier seconds from the rest, whatever search finds it. */
  lemma PlaceUnique(cells: seq<Cell>, idx: int, i: nat)
    requires Ascending(cells) && i <= |cells|
    requires i > 0 ==> cells[i - 1].t < idx
    requires i < |cells| ==> cells[i].t >= idx
    ensures Place(cells, idx) == i
  {
    PlaceMeaning(cells, idx);
  }

  lemma TotalAppend(a: seq<Cell>, b: seq<Cell>)
    ensures TotalRecv(a + b) == TotalRecv(a) + TotalRecv(b)
    ensures TotalLost(a + b) == TotalLost(a) + TotalLost(b)
  {
    assert Recvs(a + b) == Recvs(a) + Recvs(b);
    assert Losts(a + b) == Losts(a) + Losts(b);
    SumAppend(Recvs(a), Recvs(b));
    SumAppend(Losts(a), Losts(b));
  }

  lemma SumOne(x: int)
    ensures Sum([x]) == x
  {
    assert Front([x]) == [];
  }

  lemma TotalOne(c: Cell)
    ensures TotalRecv([c]) == c.recv && TotalLost([c]) == c.lost
  {
    assert Recvs([c]) == [c.recv] && Losts([c]) == [c.lost];
    SumOne(c.recv);
    SumOne(c.lost);
  }

  lemma TotalAround(cells: seq<Cell>, i: nat, c: Cell)
    requires i <= |cells|
    ensures var r := cells[..i] + [c] + cells[i..];
            TotalRecv(r) == TotalRecv(cells) + c.recv && TotalLost(r) == TotalLost(cells) + c.lost
  {
    hide TotalRecv, TotalLost;
    assert cells == cells[..i] + cells[i..];
    TotalAppend(cells[..i], cells[i..]);
    TotalAppend(cells[..i], [c]);
    TotalAppend(cells[..i] + [c], cells[i..]);
    TotalOne(c);
  }

  lemma TotalUpdate(cells: seq<Cell>, i: nat, c: Cell)
    requires i < |cells|
    ensures TotalRecv(cells[i := c]) == TotalRecv(cells) - cells[i].recv + c.recv
    ensures TotalLost(cells[i := c]) == TotalLost(cells) - cells[i].lost + c.lost
  {
    hide TotalRecv, TotalLost;
    var rest := cells[..i] + cells[i + 1..];
    assert rest[..i] == cells[..i] && rest[i..] == cells[i + 1..];
    assert cells == rest[..i] + [cells[i]] + rest[i..];
    assert cells[i := c] == rest[..i] + [c] + rest[i..];
    TotalAround(rest, i, cells[i]);
    TotalAround(rest, i, c);
  }

  lemma EnsuredFair(cells: seq<Cell>, idx: int)
    requires AllFair(cells) && idx >= 0
    ensures AllFair(Ensured(cells, idx))
  {
    hide Place;
  }

  lemma EnsuredHasAll(cells: seq<Cell>, idx: int)
    ensures forall c | c in cells :: c in Ensured(cells, idx)
  {
    hide Place;
    var i := Place(cells, idx);
    assert cells == cells[..i] + cells[i..];
  }

  /** Making room for a second keeps the order, every bucket and both totals. */
  lemma EnsuredKeeps(cells: seq<Cell>, idx: int)
    requires Ascending(cells) && AllFair(cells) && idx >= 0
    ensures var r := Ensured(cells, idx);
            && Ascending(r) && AllFair(r)
            && TotalRecv(r) == TotalRecv(cells) && TotalLost(r) == TotalLost(cells)
            && (forall c | c in cells :: c in r)
  {
    hide TotalRecv, TotalLost, Place, Ascending, AllFair;
    EnsuredAscends(cells, idx);
    EnsuredFair(cells, idx);
    EnsuredHasAll(cells, idx);
    TotalAround(cells, Place(cells, idx), Cell(idx, 0, 0, 0.0));
  }

  lemma EnsuredAscends(cells: seq<Cell>, idx: int)
    requires Ascending(cells)
    ensures Ascending(Ensured(cells, idx))
  {
    hide Place;
    PlaceMeaning(cells, idx);
  }

  lemma TotalFrontLast(cells: seq<Cell>)
    requires cells != []
    ensures TotalRecv(cells) == TotalRecv(Front(cells)) + Last(cells).recv
    ensures TotalLost(cells) == TotalLost(Front(cells)) + Last(cells).lost
  {
    hide TotalRecv, TotalLost;
    assert cells == Front(cells) + [Last(cells)];
    TotalAppend(Front(cells), [Last(cells)]);
    TotalOne(Last(cells));
  }

  /** Everything newer than the cut has been emptied, everything older is untouched. */
  ghost predicate CutAt(was: seq<Cell>, now: seq<Cell>, k: nat)
    requires |was| == |now|
  {
    && k <= |was|
    && (forall i | 0 <= i < |was| :: now[i].t == was[i].t && now[i].recv == was[i].recv)
    && (forall i | 0 <= i < |was| && i + 1 < k :: now[i] == was[i])
    && (forall i | 0 <= i < |was| && i + 1 == k :: 0 <= now[i].lost <= was[i].lost)
    && (forall i | 0 <= i < |was| && i >= k :: now[i].lost == 0)
  }

  lemma CutTop(f: seq<Cell>, c: Cell, d: Cell)
    requires d.t == c.t && d.recv == c.recv && 0 <= d.lost <= c.lost
    ensures CutAt(f + [c], f + [d], |f| + 1)
  {
  }

  lemma CutBelow(was: seq<Cell>, now: seq<Cell>, k: nat, c: Cell, d: Cell)
    requires |was| == |now| && CutAt(was, now, k)
    requires d.t == c.t && d.recv == c.recv && d.lost == 0
    ensures CutAt(was + [c], now + [d], k)
  {
  }

  /** The bucket up to which unwinding got. */
  lemma {:induction false} UnwindCut(cells: seq<Cell>, n: nat) returns (k: nat)
    requires AllFair(cells)
    ensures CutAt(cells, Unwind(cells, n), k)
  {
    hide Percent, CutAt;
    if cells == [] {
      k := 0;
      CutNone();
    } else {
      var c, f := Last(cells), Front(cells);
      var r := Unwind(cells, n);
      assert cells == f + [c] && r == Front(r) + [Last(r)];
      if n == 0 || c.lost >= n {
        k := |cells|;
        CutTop(f, c, Last(r));
      } else {
        k := UnwindCut(f, n - c.lost);
        CutBelow(f, Unwind(f, n - c.lost), k, c, Last(r));
      }
    }
  }

  lemma CutNone()
    ensures CutAt([], [], 0)
  {
  }

  /** Unwinding takes back exactly n losses, or all there are, and takes them from the newest buckets. */
  lemma {:induction false} UnwindMeaning(cells: seq<Cell>, n: nat) returns (k: nat)
    requires AllFair(cells)
    ensures var r := Unwind(cells, n);
            && AllFair(r) && CutAt(cells, r, k)
            && TotalRecv(r) == TotalRecv(cells)
            && TotalLost(r) == Max(0, TotalLost(cells) - n)
    ensures TotalLost(cells) >= 0
  {
    hide TotalRecv, TotalLost, Percent, CutAt;
    k := UnwindCut(cells, n);
    if cells == [] {
      TotalNone();
    } else {
      TotalFrontLast(cells);
      var c, f := Last(cells), Front(cells);
      var r := Unwind(cells, n);
      var rest := if n == 0 || c.lost >= n then 0 else n - c.lost;
      var _ := UnwindMeaning(f, rest);
      TotalFrontLast(r);
      UnwindNothing(f, 0);
      assert Front(r) == Unwind(f, rest);
    }
  }

  lemma UnwindNothing(cells: seq<Cell>, n: int)
    requires n <= 0 || cells == []
    ensures Unwind(cells, n) == cells
  {
  }

  /** Booking a reading moves no bucket. */
  lemma {:induction false} UnwindTimes(cells: seq<Cell>, n: int)
    ensures forall i | 0 <= i < |cells| :: Unwind(cells, n)[i].t == cells[i].t
  {
    if cells != [] && n > 0 {
      UnwindTimes(Front(cells), n);
      UnwindTimes(Front(cells), n - Last(cells).lost);
    }
  }

  lemma IngestTimes(l: Line, s: Reading)
    ensures var e, r := Ensured(l.cells, Second(s.t)), IngestStream(l, s).cells;
            |r| == |e| && forall i | 0 <= i < |e| :: r[i].t == e[i].t
  {
    hide Ensured, Unwind;
    var e, i := Ensured(l.cells, Second(s.t)), Place(l.cells, Second(s.t));
    var (dRecv, dLost) := Delta(l.last, s);
    UnwindTimes(e[i := e[i].(recv := e[i].recv + dRecv)], -dLost);
  }

  lemma AddedTimes(cells: seq<Cell>, i: nat, dRecv: int, dLost: int)
    requires i < |cells| && Ascending(cells)
    ensures Ascending(Added(cells, i, dRecv, dLost))
  {
    hide Unwind;
    var got := cells[i := cells[i].(recv := cells[i].recv + dRecv)];
    UnwindTimes(got, -dLost);
  }

  lemma TotalNone()
    ensures TotalRecv([]) == 0 && TotalLost([]) == 0
  {
  }

  /** One reading adds its deltas to the totals; only a loss that is already below zero is forgotten. */
  lemma ChargeKeeps(cells: seq<Cell>, idx: int, dRecv: nat, dLost: int)
    requires Ascending(cells) && AllFair(cells) && idx >= 0
    ensures var r := Charge(cells, idx, dRecv, dLost);
            && Ascending(r) && AllFair(r)
            && TotalRecv(r) == TotalRecv(cells) + dRecv
            && TotalLost(r) == Max(0, TotalLost(cells) + dLost)
    ensures TotalLost(cells) >= 0
  {
    hide TotalRecv, TotalLost, Unwind, Place, Ensured, Ascending, AllFair, FairExcept, CutAt;
    var _ := UnwindMeaning(cells, 0);
    EnsuredKeeps(cells, idx);
    var i, e := Place(cells, idx), Ensured(cells, idx);
    var got := e[i := e[i].(recv := e[i].recv + dRecv)];
    ReceivedFair(e, i, dRecv);
    TotalUpdate(e, i, e[i].(recv := e[i].recv + dRecv));
    ChargeLost(got, i, dLost);
  }

  lemma ReceivedFair(e: seq<Cell>, i: nat, dRecv: nat)
    requires i < |e| && Ascending(e) && AllFair(e)
    ensures var got := e[i := e[i].(recv := e[i].recv + dRecv)]; Ascending(got) && FairExcept(got, i)
  {
    hide Percent;
  }

  ghost predicate FairExcept(cells: seq<Cell>, k: int) {
    && (forall i | 0 <= i < |cells| && i != k :: Fair(cells[i]))
    && (0 <= k < |cells| ==> Fair(Priced(cells[k])))
  }

  lemma ChargeLost(got: seq<Cell>, i: nat, dLost: int)
    requires i < |got| && Ascending(got) && FairExcept(got, i)
    ensures var charged := if dLost >= 0 then got[i := got[i].(lost := got[i].lost + dLost)] else Unwind(got, -dLost);
            var r := charged[i := Priced(charged[i])];
            && Ascending(r) && AllFair(r)
            && TotalRecv(r) == TotalRecv(got)
            && TotalLost(r) == Max(0, TotalLost(got) + dLost)
  {
    hide TotalRecv, TotalLost, Percent, Unwind;
    var fair := got[i := Priced(got[i])];
    TotalUpdate(got, i, Priced(got[i]));
    if dLost >= 0 {
      var c := got[i].(lost := got[i].lost + dLost);
      TotalUpdate(got, i, c);
      TotalUpdate(got[i := c], i, Priced(c));
      var _ := UnwindMeaning(fair, 0);
    } else {
      UnwindPrices(got, i, -dLost);
      var r := Unwind(fair, -dLost);
      var k := UnwindMeaning(fair, -dLost);
      var charged := Unwind(got, -dLost);
      assert charged[i := Priced(charged[i])] == r;
    }
  }

  /** It does not matter whether a bucket is priced before or after unwinding. */
  lemma {:induction false} UnwindPrices(cells: seq<Cell>, i: nat, n: int)
    requires i < |cells|
    ensures Unwind(cells[i := Priced(cells[i])], n)
         == Unwind(cells, n)[i := Priced(Unwind(cells, n)[i])]
  {
    hide Percent;
    if n > 0 {
      var priced := cells[i := Priced(cells[i])];
      if i < |cells| - 1 {
        assert Front(priced) == Front(cells)[i := Priced(cells[i])];
        UnwindPrices(Front(cells), i, if Last(cells).lost <= 0 then n else n - Last(cells).lost);
      } else {
        assert Front(priced) == Front(cells);
      }
    }
  }

  // ------------------------------------------------------------------
  // Whole runs
  // ------------------------------------------------------------------

  datatype Event = Stream(s: Reading) | Hops(elapsed: real) | Reset

  function Step(l: Line, e: Event): Line {
    match e
    case Stream(s) => IngestStream(l, s)
    case Hops(elapsed) => l.(cells := Ensured(l.cells, Second(elapsed)))
    case Reset => l.(cells := [])
  }

  function Run(events: seq<Event>): Line {
    if events == [] then EMPTY_LINE else Step(Run(Front(events)), Last(events))
  }

  /** The cumulative counters after some events: those of the latest reading. */
  function Latest(events: seq<Event>): Reading {
    if events == [] then Reading(0.0, 0, 0)
    else if Last(events).Stream? then Last(events).s
    else Latest(Front(events))
  }

  /** Where the current window begins: after the last reset. */
  function WindowStart(events: seq<Event>): (k: nat)
    ensures k <= |events|
    ensures k > 0 ==> events[k - 1] == Reset
    ensures forall i | k <= i < |events| :: events[i] != Reset
  {
    if events == [] then 0 else if Last(events) == Reset then |events| else WindowStart(Front(events))
  }

  /** What a receiver guarantees of its snapshots: losses are counts, and receptions only grow. */
  ghost predicate Cumulative(events: seq<Event>) {
    forall i | 0 <= i < |events| && events[i].Stream? ::
      events[i].s.lost >= 0 && events[i].s.recv >= Latest(events[..i]).recv
  }

  function LostAt(events: seq<Event>, k: nat): int
    requires k <= |events|
  {
    Latest(events[..k]).lost
  }

  ghost predicate IsLowest(low: int, events: seq<Event>, from: nat)
    requires from <= |events|
  {
    && (forall k | from <= k <= |events| :: low <= LostAt(events, k))
    && (exists k :: from <= k <= |events| && low == LostAt(events, k))
  }

  ghost predicate Consistent(l: Line, events: seq<Event>, low: int) {
    && Ascending(l.cells) && AllFair(l.cells)
    && (l.last == None ==> Latest(events) == Reading(0.0, 0, 0))
    && (l.last.Some? ==> l.last.value == Latest(events))
    && TotalRecv(l.cells) == Latest(events).recv - Latest(events[..WindowStart(events)]).recv
    && TotalLost(l.cells) == Latest(events).lost - low
    && IsLowest(low, events, WindowStart(events))
  }

  lemma LowestStays(low: int, f: seq<Event>, e: Event, from: nat)
    requires from <= |f| && IsLowest(low, f, from)
    ensures IsLowest(Min(low, Latest(f + [e]).lost), f + [e], from)
  {
    hide Latest, LostAt;
    var g := f + [e];
    forall k | from <= k <= |f|
      ensures LostAt(g, k) == LostAt(f, k)
    {
      LostAtPrefix(f, e, k);
    }
    LostAtEnd(g);
    if low <= Latest(g).lost {
      var k :| from <= k <= |f| && low == LostAt(f, k);
      assert low == LostAt(g, k);
    }
  }

  lemma LostAtPrefix(f: seq<Event>, e: Event, k: nat)
    requires k <= |f|
    ensures LostAt(f + [e], k) == LostAt(f, k)
  {
    assert (f + [e])[..k] == f[..k];
  }

  lemma LostAtEnd(g: seq<Event>)
    ensures LostAt(g, |g|) == Latest(g).lost
  {
    assert g[..|g|] == g;
  }

  lemma StepConsistent(l: Line, f: seq<Event>, e: Event, low: int) returns (now: int)
    requires Consistent(l, f, low) && Cumulative(f + [e])
    ensures Consistent(Step(l, e), f + [e], now)
  {
    hide TotalRecv, TotalLost, Ensured, Charge, AllFair, Ascending, IsLowest, Latest, WindowStart, LostAt;
    var g := f + [e];
    WindowAfter(f, e);
    var w := WindowStart(f);
    match e
    case Stream(s) =>
      var (dRecv, dLost) := Delta(l.last, s);
      StreamGrows(f, e);
      ChargeKeeps(l.cells, Second(s.t), dRecv, dLost);
      now := Min(low, s.lost);
      LowestStays(low, f, e, w);
    case Hops(elapsed) =>
      EnsuredKeeps(l.cells, Second(elapsed));
      LatestIsNotLower(low, f, w);
      now := low;
      LowestStays(low, f, e, w);
    case Reset =>
      now := Latest(g).lost;
      TotalNone();
      LowestAlone(g);
      NoneIsFair();
  }

  lemma WindowAfter(f: seq<Event>, e: Event)
    ensures var g := f + [e];
            && Latest(g) == (if e.Stream? then e.s else Latest(f))
            && WindowStart(g) == (if e == Reset then |g| else WindowStart(f))
            && g[..|g|] == g
            && g[..WindowStart(f)] == f[..WindowStart(f)]
  {
    assert Front(f + [e]) == f;
  }

  lemma StreamGrows(f: seq<Event>, e: Event)
    requires Cumulative(f + [e]) && e.Stream?
    ensures e.s.lost >= 0 && e.s.recv >= Latest(f).recv
  {
    var g := f + [e];
    assert g[|f|] == e && g[..|f|] == f;
  }

  lemma LatestIsNotLower(low: int, f: seq<Event>, w: nat)
    requires w <= |f| && IsLowest(low, f, w)
    ensures low <= Latest(f).lost
  {
    LostAtEnd(f);
  }

  lemma LowestAlone(g: seq<Event>)
    ensures IsLowest(Latest(g).lost, g, |g|)
  {
    LostAtEnd(g);
  }

  lemma NoneIsFair()
    ensures AllFair([]) && Ascending([])
  {
  }

  /** The conservation law of the timeline, over every run of readings, hop ingests and resets. */
  lemma {:induction false} TimelineConserves(events: seq<Event>) returns (low: int)
    requires Cumulative(events)
    ensures Consistent(Run(events), events, low)
  {
    if events == [] {
      low := 0;
      TotalNone();
      LowestAlone(events);
    } else {
      var f := Front(events);
      assert events == f + [Last(events)];
      forall i | 0 <= i < |f| && f[i].Stream?
        ensures f[i].s.lost >= 0 && f[i].s.recv >= Latest(f[..i]).recv
      {
        assert f[..i] == events[..i] && f[i] == events[i];
      }
      low := TimelineConserves(f);
      low := StepConsistent(Run(f), f, Last(events), low);
    }
  }

  /** Until the first reset the timeline adds up to the cumulative counters exactly. */
  lemma NoResetIsExact(events: seq<Event>)
    requires Cumulative(events) && Reset !in events
    ensures var l := Run(events);
            && TotalRecv(l.cells) == Latest(events).recv
            && TotalLost(l.cells) == Latest(events).lost
            && Ascending(l.cells) && AllFair(l.cells)
  {
    hide TotalRecv, TotalLost;
    var low := TimelineConserves(events);
    var w := WindowStart(events);
    assert w == 0;
    assert events[..0] == [];
    assert low <= LostAt(events, 0);
    var k :| 0 <= k <= |events| && low == LostAt(events, k);
    LostNotNegative(events, k);
  }

  lemma {:induction false} LostNotNegative(events: seq<Event>, k: nat)
    requires Cumulative(events) && k <= |events|
    ensures LostAt(events, k) >= 0
  {
    if k > 0 {
      assert Front(events[..k]) == events[..k - 1] && Last(events[..k]) == events[k - 1];
      LostNotNegative(events, k - 1);
    }
  }
}
