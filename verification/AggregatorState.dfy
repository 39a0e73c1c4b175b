/** What the client-side aggregator holds and shows, as values (internal/agg/aggregator.go). */
module AggregatorState {
  import opened Prelude
  import opened ProbeTable
  import Timeline

  datatype HopView = HopView(stat: HopStat, suspect: bool)

  /** The hop tables of one bucket. */
  datatype Tables = Tables(icmp: seq<HopView>, tcp: seq<HopView>)

  datatype State = State(line: Timeline.Line, tables: seq<Tables>, hops: seq<HopView>, tcpHops: seq<HopView>)

  const EMPTY := State(Timeline.EMPTY_LINE, [], [], [])

  datatype Op =
    | Stream(s: Timeline.Reading)
    | ForwardHop(elapsed: real, stats: seq<HopStat>)
    | ForwardTcpHop(elapsed: real, stats: seq<HopStat>)
    | MarkSuspects(ttls: set<int>)
    | MarkTcpSuspects(ttls: set<int>)
    | Reset

  ghost predicate WellFormed(st: State) { |st.tables| == |st.line.cells| }

  function Views(stats: seq<HopStat>): seq<HopView> {
    seq(|stats|, i requires 0 <= i < |stats| => HopView(stats[i], false))
  }

  function Mark(h: HopView, ttls: set<int>): HopView { if h.stat.ttl in ttls then h.(suspect := true) else h }

  function Marked(hs: seq<HopView>, ttls: set<int>): seq<HopView> {
    seq(|hs|, i requires 0 <= i < |hs| => Mark(hs[i], ttls))
  }

  function Cleared(hs: seq<HopView>): seq<HopView> {
    seq(|hs|, i requires 0 <= i < |hs| => hs[i].(suspect := false))
  }

  function MarkedIcmp(ts: seq<Tables>, ttls: set<int>): seq<Tables> {
    seq(|ts|, i requires 0 <= i < |ts| => ts[i].(icmp := Marked(ts[i].icmp, ttls)))
  }

  function MarkedTcp(ts: seq<Tables>, ttls: set<int>): seq<Tables> {
    seq(|ts|, i requires 0 <= i < |ts| => ts[i].(tcp := Marked(ts[i].tcp, ttls)))
  }

  /** Makes sure the timeline has a bucket for idx. */
  function Room(st: State, idx: int): (r: State)
    requires WellFormed(st)
    ensures WellFormed(r) && Timeline.Place(st.line.cells, idx) < |r.tables|
  {
    var cells, i := st.line.cells, Timeline.Place(st.line.cells, idx);
    st.(line := st.line.(cells := Timeline.Ensured(cells, idx)),
        tables := if Timeline.Present(cells, idx) then st.tables
                  else st.tables[..i] + [Tables([], [])] + st.tables[i..])
  }

  function Apply(st: State, op: Op): (r: State)
    requires WellFormed(st)
    ensures WellFormed(r)
  {
    match op
    case Stream(s) =>
      var r := Room(st, Timeline.Second(s.t));
      ChargeLength(st.line, s);
      r.(line := Timeline.IngestStream(st.line, s))
    case ForwardHop(elapsed, stats) =>
      var i := Timeline.Place(st.line.cells, Timeline.Second(elapsed));
      var r := Room(st, Timeline.Second(elapsed));
      r.(hops := Views(stats), tables := r.tables[i := r.tables[i].(icmp := Views(stats))])
    case ForwardTcpHop(elapsed, stats) =>
      if stats == [] then st.(tcpHops := [])
      else
        var i := Timeline.Place(st.line.cells, Timeline.Second(elapsed));
        var r := Room(st, Timeline.Second(elapsed));
        r.(tcpHops := Views(stats), tables := r.tables[i := r.tables[i].(tcp := Views(stats))])
    case MarkSuspects(ttls) => st.(hops := Marked(st.hops, ttls), tables := MarkedIcmp(st.tables, ttls))
    case MarkTcpSuspects(ttls) => st.(tcpHops := Marked(st.tcpHops, ttls), tables := MarkedTcp(st.tables, ttls))
    case Reset =>
      st.(line := st.line.(cells := []), tables := [], hops := Cleared(st.hops), tcpHops := Cleared(st.tcpHops))
  }

  lemma ChargeLength(l: Timeline.Line, s: Timeline.Reading)
    ensures |Timeline.IngestStream(l, s).cells| == |Timeline.Ensured(l.cells, Timeline.Second(s.t))|
  {
  }

  function ApplyAll(ops: seq<Op>): (r: State)
    ensures WellFormed(r)
  {
    if ops == [] then EMPTY else Apply(ApplyAll(Front(ops)), Last(ops))
  }

  datatype StreamView = StreamView(recv: int, lost: int, lossPct: real)

  function StreamViewOf(last: Option<Timeline.Reading>): StreamView {
    match last
    case None => StreamView(0, 0, 0.0)
    case Some(s) => StreamView(s.recv, s.lost, Timeline.Percent(s.lost, s.recv))
  }

  /** Everything a published snapshot lets its reader see. */
  datatype Shown = Shown(
    t: real, stream: StreamView, cells: seq<Timeline.Cell>, tables: seq<Tables>,
    hops: seq<HopView>, tcpHops: seq<HopView>)

  function LastT(last: Option<Timeline.Reading>): real { if last == None then 0.0 else last.value.t }

  function ShownOf(st: State, t: real): Shown {
    Shown(t, StreamViewOf(st.line.last), st.line.cells, st.tables, st.hops, st.tcpHops)
  }

  /** What the operation publishes, if anything. */
  function Published(st: State, op: Op): Option<Shown>
    requires WellFormed(st)
  {
    var r := Apply(st, op);
    match op
    case Stream(s) => Some(ShownOf(r, s.t))
    case ForwardHop(elapsed, _) => Some(ShownOf(r, elapsed))
    case MarkSuspects(ttls) => if ttls == {} then None else Some(ShownOf(r, LastT(r.line.last)))
    case MarkTcpSuspects(ttls) => if ttls == {} then None else Some(ShownOf(r, LastT(r.line.last)))
    case _ => Some(ShownOf(r, LastT(r.line.last)))
  }

  /** Only a mark on no TTL at all is silent, and it changes nothing. */
  lemma SilentIff(st: State, op: Op)
    requires WellFormed(st)
    ensures Published(st, op) == None <==> (op.MarkSuspects? || op.MarkTcpSuspects?) && op.ttls == {}
    ensures Published(st, op) == None ==> Apply(st, op) == st
  {
    MarkNone(st);
  }

  /** An empty verdict changes nothing. */
  lemma MarkNone(st: State)
    requires WellFormed(st)
    ensures Apply(st, MarkSuspects({})) == st && Apply(st, MarkTcpSuspects({})) == st
  {
    assert forall hs: seq<HopView> :: Marked(hs, {}) == hs;
    assert MarkedIcmp(st.tables, {}) == st.tables;
    assert MarkedTcp(st.tables, {}) == st.tables;
  }

  // ------------------------------------------------------------------
  // The timeline inside
  // ------------------------------------------------------------------

  /** The operations the timeline sees. */
  function Project(ops: seq<Op>): seq<Timeline.Event> {
    if ops == [] then []
    else
      Project(Front(ops)) +
      match Last(ops)
      case Stream(s) => [Timeline.Stream(s)]
      case ForwardHop(elapsed, _) => [Timeline.Hops(elapsed)]
      case ForwardTcpHop(elapsed, stats) => if stats == [] then [] else [Timeline.Hops(elapsed)]
      case Reset => [Timeline.Reset]
      case _ => []
  }

  /** Marking suspects and refreshing hop tables never touches the loss timeline. */
  lemma {:induction false} LineIsTimeline(ops: seq<Op>)
    ensures ApplyAll(ops).line == Timeline.Run(Project(ops))
  {
    hide Timeline.IngestStream, Timeline.Ensured, Timeline.Place, Timeline.Present;
    hide Marked, MarkedIcmp, MarkedTcp, Cleared, Views;
    if ops != [] {
      LineIsTimeline(Front(ops));
      var p, q := Project(Front(ops)), Project(ops);
      if q != p {
        assert Front(q) == p;
      }
    }
  }

  /** So the conservation law holds of everything the aggregator publishes. */
  lemma {:induction false} PublishedConserves(ops: seq<Op>) returns (low: int)
    requires Timeline.Cumulative(Project(ops))
    ensures Timeline.Consistent(ApplyAll(ops).line, Project(ops), low)
  {
    LineIsTimeline(ops);
    low := Timeline.TimelineConserves(Project(ops));
  }

  // ------------------------------------------------------------------
  // Verdicts
  // ------------------------------------------------------------------

  /** The TTLs that verdicts on the ICMP or on the TCP tables named since the last reset. */
  function Named(ops: seq<Op>, tcp: bool): set<int> {
    if ops == [] then {}
    else
      match Last(ops)
      case MarkSuspects(ttls) => Named(Front(ops), tcp) + if tcp then {} else ttls
      case MarkTcpSuspects(ttls) => Named(Front(ops), tcp) + if tcp then ttls else {}
      case Reset => {}
      case _ => Named(Front(ops), tcp)
  }

  ghost predicate FlagsWithin(hs: seq<HopView>, ttls: set<int>) {
    forall i | 0 <= i < |hs| && hs[i].suspect :: hs[i].stat.ttl in ttls
  }

  function Table(t: Tables, tcp: bool): seq<HopView> { if tcp then t.tcp else t.icmp }

  function Live(st: State, tcp: bool): seq<HopView> { if tcp then st.tcpHops else st.hops }

  ghost predicate TablesWithin(ts: seq<Tables>, tcp: bool, ttls: set<int>) {
    forall i | 0 <= i < |ts| :: FlagsWithin(Table(ts[i], tcp), ttls)
  }

  lemma ApplyFlags(st: State, op: Op, tcp: bool, named: set<int>, now: set<int>)
    requires WellFormed(st) && FlagsWithin(Live(st, tcp), named) && TablesWithin(st.tables, tcp, named)
    requires now == match op
                    case MarkSuspects(ttls) => named + (if tcp then {} else ttls)
                    case MarkTcpSuspects(ttls) => named + (if tcp then ttls else {})
                    case Reset => {}
                    case _ => named
    ensures FlagsWithin(Live(Apply(st, op), tcp), now) && TablesWithin(Apply(st, op).tables, tcp, now)
  {
    hide Timeline.IngestStream, Timeline.Ensured, Timeline.Place, Timeline.Present;
    hide FlagsWithin, Marked, Cleared, Views;
    assert TablesWithin([], tcp, now);
    NoFlags(tcp);
    forall hs: seq<HopView>, ttls | FlagsWithin(hs, named)
      ensures FlagsWithin(Marked(hs, ttls), named + ttls) && FlagsWithin(Cleared(hs), {})
    {
      MarkedWithin(hs, named, ttls);
    }
    forall stats: seq<HopStat>
      ensures FlagsWithin(Views(stats), named)
    {
      ViewsWithin(stats, named);
    }
    assert named + {} == named;
    NoneWithin(named);
  }

  lemma MarkedWithin(hs: seq<HopView>, named: set<int>, ttls: set<int>)
    requires FlagsWithin(hs, named)
    ensures FlagsWithin(Marked(hs, ttls), named + ttls) && FlagsWithin(Cleared(hs), {})
  {
  }

  lemma ViewsWithin(stats: seq<HopStat>, named: set<int>)
    ensures FlagsWithin(Views(stats), named)
  {
  }

  lemma NoneWithin(named: set<int>)
    ensures FlagsWithin([], named)
  {
  }

  /** A hop of either kind of table, live or filed under a second, is flagged only if a verdict on that kind
      of table since the last reset named it. */
  lemma {:induction false} OnlyNamedAreSuspect(ops: seq<Op>, tcp: bool)
    ensures FlagsWithin(Live(ApplyAll(ops), tcp), Named(ops, tcp))
    ensures TablesWithin(ApplyAll(ops).tables, tcp, Named(ops, tcp))
  {
    hide Apply, FlagsWithin;
    if ops == [] {
      NoFlags(tcp);
    } else {
      OnlyNamedAreSuspect(Front(ops), tcp);
      ApplyFlags(ApplyAll(Front(ops)), Last(ops), tcp, Named(Front(ops), tcp), Named(ops, tcp));
    }
  }

  lemma NoFlags(tcp: bool)
    ensures FlagsWithin([], {}) && TablesWithin([], tcp, {})
  {
  }

  // ------------------------------------------------------------------
  // Which second holds what
  // ------------------------------------------------------------------

  /** The second an operation needs a bucket for. */
  function SecondOf(op: Op): Option<int> {
    match op
    case Stream(s) => Some(Timeline.Second(s.t))
    case ForwardHop(elapsed, _) => Some(Timeline.Second(elapsed))
    case ForwardTcpHop(elapsed, stats) => if stats == [] then None else Some(Timeline.Second(elapsed))
    case _ => None
  }

  /** The seconds something was reported for since the last reset. */
  function Touched(ops: seq<Op>): set<int> {
    if ops == [] then {}
    else if Last(ops).Reset? then {}
    else Touched(Front(ops)) + if SecondOf(Last(ops)).Some? then {SecondOf(Last(ops)).value} else {}
  }

  /** The table most recently reported for second k since the last reset. */
  function Filed(ops: seq<Op>, k: int, tcp: bool): seq<HopStat> {
    if ops == [] then []
    else
      match Last(ops)
      case Reset => []
      case ForwardHop(elapsed, stats) =>
        if !tcp && Timeline.Second(elapsed) == k then stats else Filed(Front(ops), k, tcp)
      case ForwardTcpHop(elapsed, stats) =>
        if tcp && stats != [] && Timeline.Second(elapsed) == k then stats else Filed(Front(ops), k, tcp)
      case _ => Filed(Front(ops), k, tcp)
  }

  function StatsIn(hs: seq<HopView>): seq<HopStat> { seq(|hs|, i requires 0 <= i < |hs| => hs[i].stat) }

  ghost predicate Holds(t: Tables, ops: seq<Op>, k: int) {
    StatsIn(t.icmp) == Filed(ops, k, false) && StatsIn(t.tcp) == Filed(ops, k, true)
  }

  ghost predicate AllHold(cells: seq<Timeline.Cell>, tables: seq<Tables>, ops: seq<Op>, seconds: set<int>) {
    |tables| == |cells| && forall i | 0 <= i < |cells| :: cells[i].t in seconds && Holds(tables[i], ops, cells[i].t)
  }

  ghost predicate Reaches(cells: seq<Timeline.Cell>, k: int) { exists i :: 0 <= i < |cells| && cells[i].t == k }

  /** One bucket per reported second, in order, holding that second's latest tables. */
  ghost predicate FiledRight(cells: seq<Timeline.Cell>, tables: seq<Tables>, ops: seq<Op>, seconds: set<int>) {
    Timeline.Ascending(cells) && AllHold(cells, tables, ops, seconds) && forall k | k in seconds :: Reaches(cells, k)
  }

  lemma {:induction false} UntouchedIsEmpty(ops: seq<Op>, k: int, tcp: bool)
    requires k !in Touched(ops)
    ensures Filed(ops, k, tcp) == []
  {
    if ops != [] {
      if !Last(ops).Reset? {
        UntouchedIsEmpty(Front(ops), k, tcp);
      }
    }
  }

  lemma EmptyHolds(ops: seq<Op>, k: int)
    requires k !in Touched(ops)
    ensures Holds(Tables([], []), ops, k)
  {
    UntouchedIsEmpty(ops, k, false);
    UntouchedIsEmpty(ops, k, true);
  }

  lemma InsertHolds(
      cells: seq<Timeline.Cell>, tables: seq<Tables>, ops: seq<Op>, seconds: set<int>, i: nat, c: Timeline.Cell)
    requires AllHold(cells, tables, ops, seconds) && i <= |cells| && Holds(Tables([], []), ops, c.t)
    ensures AllHold(cells[..i] + [c] + cells[i..], tables[..i] + [Tables([], [])] + tables[i..], ops, seconds + {c.t})
  {
    hide Holds;
    PlacedAt(cells, i, c);
    PlacedAt(tables, i, Tables([], []));
  }

  lemma InsertReaches(cells: seq<Timeline.Cell>, i: nat, c: Timeline.Cell, k: int)
    requires i <= |cells| && (k == c.t || Reaches(cells, k))
    ensures Reaches(cells[..i] + [c] + cells[i..], k)
  {
    PlacedAt(cells, i, c);
    var r := cells[..i] + [c] + cells[i..];
    if k == c.t {
      assert r[i].t == k;
    } else {
      var j :| 0 <= j < |cells| && cells[j].t == k;
      assert r[if j < i then j else j + 1].t == k;
    }
  }

  lemma RoomFiles(st: State, ops: seq<Op>, idx: int)
    requires WellFormed(st) && FiledRight(st.line.cells, st.tables, ops, Touched(ops))
    ensures FiledRight(Room(st, idx).line.cells, Room(st, idx).tables, ops, Touched(ops) + {idx})
  {
    hide Holds, Touched, Filed, AllHold, Reaches, Timeline.Place, Timeline.Ascending;
    var cells, i := st.line.cells, Timeline.Place(st.line.cells, idx);
    var c := Timeline.Cell(idx, 0, 0, 0.0);
    Timeline.EnsuredAscends(cells, idx);
    if Timeline.Present(cells, idx) {
      PresentHolds(cells, st.tables, ops, Touched(ops), i);
    } else {
      if idx in Touched(ops) {
        ReachedIsPresent(cells, idx);
      }
      EmptyHolds(ops, idx);
      InsertHolds(cells, st.tables, ops, Touched(ops), i, c);
      forall k | k in Touched(ops) + {idx}
        ensures Reaches(cells[..i] + [c] + cells[i..], k)
      {
        InsertReaches(cells, i, c, k);
      }
    }
  }

  lemma PresentHolds(cells: seq<Timeline.Cell>, tables: seq<Tables>, ops: seq<Op>, seconds: set<int>, i: nat)
    requires AllHold(cells, tables, ops, seconds) && i < |cells|
    ensures AllHold(cells, tables, ops, seconds + {cells[i].t}) && Reaches(cells, cells[i].t)
  {
  }

  lemma ReachedIsPresent(cells: seq<Timeline.Cell>, idx: int)
    requires Timeline.Ascending(cells) && Reaches(cells, idx)
    ensures Timeline.Present(cells, idx)
  {
    Timeline.PlaceMeaning(cells, idx);
    var i := Timeline.Place(cells, idx);
    var j :| 0 <= j < |cells| && cells[j].t == idx;
    assert i <= j && cells[i].t <= cells[j].t;
  }

  /** The same buckets and tables, read against a longer history. */
  lemma HistoryGrows(
      cells: seq<Timeline.Cell>, was: seq<Tables>, now: seq<Tables>, f: seq<Op>, ops: seq<Op>, seconds: set<int>)
    requires AllHold(cells, was, f, seconds) && |now| == |was|
    requires forall i | 0 <= i < |cells| && Holds(was[i], f, cells[i].t) :: Holds(now[i], ops, cells[i].t)
    ensures AllHold(cells, now, ops, seconds)
  {
  }

  lemma SameTimes(
      cells: seq<Timeline.Cell>, now: seq<Timeline.Cell>, tables: seq<Tables>, ops: seq<Op>, seconds: set<int>)
    requires FiledRight(cells, tables, ops, seconds)
    requires |now| == |cells| && forall i | 0 <= i < |cells| :: now[i].t == cells[i].t
    ensures FiledRight(now, tables, ops, seconds)
  {
    hide Holds;
    forall k | k in seconds
      ensures Reaches(now, k)
    {
      assert Reaches(cells, k);
      var i :| 0 <= i < |cells| && cells[i].t == k;
      assert now[i].t == k;
    }
  }

  lemma FlagsKeepStats(hs: seq<HopView>, ttls: set<int>)
    ensures StatsIn(Marked(hs, ttls)) == StatsIn(hs)
  {
  }

  lemma ViewsKeepStats(stats: seq<HopStat>)
    ensures StatsIn(Views(stats)) == stats
  {
  }

  /** Filing one table changes one bucket. */
  lemma FileOne(cells: seq<Timeline.Cell>, was: seq<Tables>, f: seq<Op>, op: Op, i: nat, seconds: set<int>)
    requires Timeline.Ascending(cells) && AllHold(cells, was, f, seconds) && i < |cells|
    requires op.ForwardHop? || op.ForwardTcpHop?
    requires SecondOf(op) == Some(cells[i].t)
    ensures var t := if op.ForwardHop? then was[i].(icmp := Views(op.stats)) else was[i].(tcp := Views(op.stats));
            AllHold(cells, was[i := t], f + [op], seconds)
  {
    var t := if op.ForwardHop? then was[i].(icmp := Views(op.stats)) else was[i].(tcp := Views(op.stats));
    var ops, now := f + [op], was[i := t];
    assert Front(ops) == f && Last(ops) == op;
    ViewsKeepStats(op.stats);
    forall j | 0 <= j < |cells| && Holds(was[j], f, cells[j].t)
      ensures Holds(now[j], ops, cells[j].t)
    {
      assert j < i ==> cells[j].t < cells[i].t;
      assert i < j ==> cells[i].t < cells[j].t;
    }
    HistoryGrows(cells, was, now, f, ops, seconds);
  }

  lemma StreamFiles(st: State, f: seq<Op>, op: Op)
    requires WellFormed(st) && op.Stream? && FiledRight(st.line.cells, st.tables, f, Touched(f))
    ensures FiledRight(Apply(st, op).line.cells, Apply(st, op).tables, f + [op], Touched(f + [op]))
  {
    hide Timeline.IngestStream, AllHold, Timeline.Ensured;
    var idx := Timeline.Second(op.s.t);
    var r, u, ops := Room(st, idx), Apply(st, op), f + [op];
    assert Front(ops) == f && Last(ops) == op;
    RoomFiles(st, f, idx);
    Timeline.IngestTimes(st.line, op.s);
    HistoryGrows(r.line.cells, r.tables, r.tables, f, ops, Touched(f) + {idx});
    SameTimes(r.line.cells, u.line.cells, r.tables, ops, Touched(f) + {idx});
  }

  lemma HopFiles(st: State, f: seq<Op>, op: Op)
    requires WellFormed(st) && FiledRight(st.line.cells, st.tables, f, Touched(f))
    requires op.ForwardHop? || (op.ForwardTcpHop? && op.stats != [])
    ensures FiledRight(Apply(st, op).line.cells, Apply(st, op).tables, f + [op], Touched(f + [op]))
  {
    hide AllHold, Timeline.Place, Views;
    var idx := Timeline.Second(op.elapsed);
    var r, i := Room(st, idx), Timeline.Place(st.line.cells, idx);
    assert Front(f + [op]) == f && Last(f + [op]) == op;
    RoomFiles(st, f, idx);
    FileOne(r.line.cells, r.tables, f, op, i, Touched(f) + {idx});
  }

  lemma MarkFiles(st: State, f: seq<Op>, op: Op)
    requires WellFormed(st) && FiledRight(st.line.cells, st.tables, f, Touched(f))
    requires op.MarkSuspects? || op.MarkTcpSuspects? || (op.ForwardTcpHop? && op.stats == [])
    ensures FiledRight(Apply(st, op).line.cells, Apply(st, op).tables, f + [op], Touched(f + [op]))
  {
    hide AllHold, Marked;
    var u, ops := Apply(st, op), f + [op];
    assert Front(ops) == f && Last(ops) == op;
    forall i | 0 <= i < |st.tables| && Holds(st.tables[i], f, st.line.cells[i].t)
      ensures Holds(u.tables[i], ops, st.line.cells[i].t)
    {
      if !op.ForwardTcpHop? {
        FlagsKeepStats(st.tables[i].icmp, op.ttls);
        FlagsKeepStats(st.tables[i].tcp, op.ttls);
      }
    }
    HistoryGrows(st.line.cells, st.tables, u.tables, f, ops, Touched(f));
    assert Touched(ops) == Touched(f);
  }

  /** Over every run: there is one bucket for each second reported since the last reset, in order, and it
      holds the latest ICMP and TCP tables reported for that second. */
  lemma {:induction false} BucketsHoldTheirSecond(ops: seq<Op>)
    ensures FiledRight(ApplyAll(ops).line.cells, ApplyAll(ops).tables, ops, Touched(ops))
  {
    hide FiledRight, Apply;
    if ops == [] || Last(ops).Reset? {
      NothingFiled(ops);
    } else {
      var f, op := Front(ops), Last(ops);
      var st := ApplyAll(f);
      BucketsHoldTheirSecond(f);
      assert ops == f + [op];
      if op.Stream? {
        StreamFiles(st, f, op);
      } else if op.ForwardHop? || (op.ForwardTcpHop? && op.stats != []) {
        HopFiles(st, f, op);
      } else {
        MarkFiles(st, f, op);
      }
    }
  }

  lemma NothingFiled(ops: seq<Op>)
    requires ops == [] || Last(ops).Reset?
    ensures FiledRight(ApplyAll(ops).line.cells, ApplyAll(ops).tables, ops, Touched(ops))
  {
  }

  // ------------------------------------------------------------------
  // What is live
  // ------------------------------------------------------------------

  /** The table of each kind most recently reported, resets or not. */
  function LatestTable(ops: seq<Op>, tcp: bool): seq<HopStat> {
    if ops == [] then []
    else
      match Last(ops)
      case ForwardHop(_, stats) => if tcp then LatestTable(Front(ops), tcp) else stats
      case ForwardTcpHop(_, stats) => if tcp then stats else LatestTable(Front(ops), tcp)
      case _ => LatestTable(Front(ops), tcp)
  }

  lemma ClearingKeepsStats(hs: seq<HopView>)
    ensures StatsIn(Cleared(hs)) == StatsIn(hs)
  {
  }

  lemma {:induction false} LiveIsLatest(ops: seq<Op>, tcp: bool)
    ensures StatsIn(Live(ApplyAll(ops), tcp)) == LatestTable(ops, tcp)
  {
    hide Timeline.IngestStream, Timeline.Ensured, Timeline.Place, Timeline.Present;
    hide Marked, Cleared, Views, StatsIn;
    if ops != [] {
      LiveIsLatest(Front(ops), tcp);
      var st, op := ApplyAll(Front(ops)), Last(ops);
      match op
      case ForwardHop(_, stats) => ViewsKeepStats(stats);
      case ForwardTcpHop(_, stats) =>
        ViewsKeepStats(stats);
        NoRows();
      case MarkSuspects(ttls) => FlagsKeepStats(st.hops, ttls);
      case MarkTcpSuspects(ttls) => FlagsKeepStats(st.tcpHops, ttls);
      case Reset =>
        ClearingKeepsStats(st.hops);
        ClearingKeepsStats(st.tcpHops);
      case _ =>
    } else {
      NoRows();
    }
  }

  lemma NoRows()
    ensures StatsIn([]) == []
  {
  }

  /** The latest stream reading, resets or not. */
  function LatestReading(ops: seq<Op>): Option<Timeline.Reading> {
    if ops == [] then None else if Last(ops).Stream? then Some(Last(ops).s) else LatestReading(Front(ops))
  }

  lemma {:induction false} LastIsLatest(ops: seq<Op>)
    ensures ApplyAll(ops).line.last == LatestReading(ops)
  {
    hide Timeline.Ensured, Timeline.Place, Timeline.Present, Timeline.Charge;
    hide Marked, MarkedIcmp, MarkedTcp, Cleared, Views;
    if ops != [] {
      LastIsLatest(Front(ops));
    }
  }

  /** Every published snapshot shows the latest reading's counters, the lost share of them, and the latest
      table of each kind; its time is that of the reading or the table just reported, and otherwise of the
      latest reading. */
  lemma PublishedIsLatest(ops: seq<Op>, op: Op)
    ensures var p, s := Published(ApplyAll(ops), op), LatestReading(ops + [op]);
            p.Some? ==>
              && ShowsReading(p.value.stream, s)
              && StatsIn(p.value.hops) == LatestTable(ops + [op], false)
              && StatsIn(p.value.tcpHops) == LatestTable(ops + [op], true)
              && p.value.t == (if op.ForwardHop? then op.elapsed else if s == None then 0.0 else s.value.t)
  {
    assert Front(ops + [op]) == ops && Last(ops + [op]) == op;
    LastIsLatest(ops + [op]);
    StreamTimes(ops, op);
    hide Apply, StatsIn, LatestTable, LatestReading, ShowsReading, StreamViewOf;
    LiveIsLatest(ops + [op], false);
    LiveIsLatest(ops + [op], true);
    ViewShows(LatestReading(ops + [op]));
  }

  lemma StreamTimes(ops: seq<Op>, op: Op)
    ensures op.Stream? ==> LatestReading(ops + [op]) == Some(op.s)
  {
  }

  /** The counters of the reading, and their lost share. */
  ghost predicate ShowsReading(v: StreamView, s: Option<Timeline.Reading>) {
    && v.recv == (if s == None then 0 else s.value.recv)
    && v.lost == (if s == None then 0 else s.value.lost)
    && (v.recv + v.lost > 0 ==> v.lossPct * (v.recv + v.lost) as real == 100.0 * v.lost as real)
    && (v.recv + v.lost <= 0 ==> v.lossPct == 0.0)
  }

  lemma ViewShows(s: Option<Timeline.Reading>)
    ensures ShowsReading(StreamViewOf(s), s)
  {
    if s.Some? && s.value.recv + s.value.lost > 0 {
      var n := (s.value.recv + s.value.lost) as real;
      var q := s.value.lost as real / n;
      assert q * n == s.value.lost as real;
    }
  }
}
