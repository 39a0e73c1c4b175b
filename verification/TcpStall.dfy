/** What ageing out is for: a TCP prober whose probes are neither answered nor aged out overfills its
    port range and then reuses a live port (internal/probe/probe_tcp_unix.go). */
module TcpStall {
  import opened Prelude
  import Modular
  import opened ProbeTable
  import opened PortAllocator
  import opened TcpSweep
  import opened TcpLaps

  /** A sweep of a prober whose probes have all stayed in flight: the goroutines below k are done. */
  ghost predicate Filling(u: Prober, k: nat) {
    && Marching(u, k) && u.table.terminus == 0 && |u.threads| <= |u.table.hops|
    && (forall i | 0 <= i < k :: u.threads[i] == Done)
    && u.reach == u.cursor <= u.slice.range
    && u.table.inflight.Keys == Walked(u.slice, 0, u.cursor)
  }

  function OneProbe(k: nat): seq<Event> { [Allocate(k + 1), Enlist(k + 1, 0), GiveUp(k + 1)] }

  lemma NextIsFree(sl: Slice, c: nat)
    requires sl.Valid() && c < sl.range
    ensures At(sl, c) !in Walked(sl, 0, c)
  {
    hide At, Walked;
    forall i: nat | i < c
      ensures At(sl, i) != At(sl, c)
    {
      SlotsDiffer(sl, i, c);
    }
    NotWalked(sl, 0, c, c);
  }

  /** A dial that neither succeeds nor fails leaves the probe in flight. */
  lemma GivingUp(w: Prober, k: nat) returns (z: Prober)
    requires Marching(w, k + 1) && w.threads[k].Registered?
    ensures z == Step(w, GiveUp(k + 1)) && Marching(z, k + 1)
    ensures z.threads == w.threads[k := Done] && z.slice == w.slice
    ensures z.table == w.table && z.reach == w.reach && z.cursor == w.cursor
  {
    hide Balanced;
    z := Step(w, GiveUp(k + 1));
  }

  lemma RunThree(s: Prober, e: Event, f: Event, g: Event)
    requires WellFormed(s)
    ensures Run(s, [e, f, g]) == Step(Step(Step(s, e), f), g)
  {
    assert Front([e, f, g]) == [e, f] && Last([e, f, g]) == g;
    RunTwo(s, e, f);
  }

  lemma FillOne(u: Prober, k: nat)
    requires Filling(u, k) && k < |u.threads| && u.cursor < u.slice.range
    ensures var v := Run(u, OneProbe(k));
            && Filling(v, k + 1) && v.cursor == u.cursor + 1 && v.slice == u.slice
            && |v.threads| == |u.threads| && |v.table.hops| == |u.table.hops|
  {
    hide At, Walked, Balanced, Step, Run;
    NextIsFree(u.slice, u.cursor);
    var q, v := Handing(u, k, u.cursor);
    var w := Registering(v, k);
    var z := GivingUp(w, k);
    WalkedLast(u.slice, 0, u.cursor);
    RunThree(u, Allocate(k + 1), Enlist(k + 1, 0), GiveUp(k + 1));
  }

  lemma {:induction false} FillSweep(u: Prober, k: nat) returns (events: seq<Event>)
    requires Filling(u, k) && u.cursor + |u.threads| - k <= u.slice.range
    ensures var v := Run(u, events);
            && Filling(v, |u.threads|) && v.cursor == u.cursor + |u.threads| - k && v.slice == u.slice
            && |v.threads| == |u.threads| && |v.table.hops| == |u.table.hops|
    decreases |u.threads| - k
  {
    assert WellFormed(u);
    hide Filling, OneProbe, Run;
    events := [];
    if k == |u.threads| {
      RunNone(u);
    } else {
      FillingIsMarching(u, k);
      FillOne(u, k);
      var rest := FillSweep(Run(u, OneProbe(k)), k + 1);
      RunAppend(u, OneProbe(k), rest);
      events := OneProbe(k) + rest;
    }
  }

  lemma FillingIsMarching(u: Prober, k: nat)
    requires Filling(u, k)
    ensures k <= |u.threads|
  {
  }

  lemma RunNone(u: Prober)
    requires WellFormed(u)
    ensures Run(u, []) == u
  {
  }

  /** The probes of n whole sweeps. */
  function AllSent(n: nat, hops: nat): nat { n * hops }

  lemma AllSentGrows(n: nat, hops: nat)
    ensures AllSent(0, hops) == 0 && AllSent(n + 1, hops) == AllSent(n, hops) + hops
  {
    Modular.SplitSum(hops, n, 1);
  }

  /** The start of a sweep with everything sent so far still in flight. */
  ghost predicate Stalled(v: Prober, sl: Slice, hops: nat, n: nat) {
    && JustStarted(v) && Filling(v, 0) && v.slice == sl
    && |v.threads| == |v.table.hops| == hops && v.cursor == |v.held| == AllSent(n, hops)
  }

  lemma StalledStart(u: Prober, hops: nat, n: nat)
    requires Filling(u, |u.threads|) && |u.table.hops| == hops && u.cursor == AllSent(n, hops)
    ensures Stalled(Step(u, StartSweep), u.slice, hops, n)
  {
    hide At, Walked, Balanced, AllSlots;
    var v := Step(u, StartSweep);
    WalkedInSlice(u.slice, 0, u.cursor);
    FirstTurnCard(u.slice, u.cursor);
  }

  lemma {:induction false} FirstTurnCard(sl: Slice, c: nat)
    requires sl.Valid() && c <= sl.range
    ensures |Walked(sl, 0, c)| == c
  {
    hide At;
    if c > 0 {
      FirstTurnCard(sl, c - 1);
      NextIsFree(sl, c - 1);
    }
  }

  lemma FreshFills(s: Prober)
    requires Initial(s)
    ensures Filling(s, |s.threads|)
  {
    hide Balanced;
    FreshIsBalanced(s.table);
    WalkedNothing(s.slice, 0);
  }

  /** One more whole sweep, and the start of the next. */
  lemma {:induction false} StallOnce(u: Prober, sl: Slice, hops: nat, n: nat) returns (events: seq<Event>)
    requires Stalled(u, sl, hops, n) && AllSent(n + 1, hops) <= sl.range
    ensures WellFormed(u) && Stalled(Run(u, events), sl, hops, n + 1)
  {
    StalledMeans(u, sl, hops, n);
    assert WellFormed(u);
    hide Run, Stalled, Filling, Step, JustStarted, AllSent;
    AllSentGrows(n, hops);
    var sweep := FillSweep(u, 0);
    StalledStart(Run(u, sweep), hops, n + 1);
    RunOne(Run(u, sweep), StartSweep);
    RunAppend(u, sweep, [StartSweep]);
    events := sweep + [StartSweep];
  }

  lemma StallFirst(s: Prober)
    requires Initial(s)
    ensures WellFormed(s) && Reaches(s, [StartSweep], |s.table.hops|, 0)
  {
    FreshFills(s);
    FreshCursor(s);
    assert WellFormed(s);
    hide Stalled, Filling, Step, Initial, AllSent;
    AllSentGrows(0, |s.table.hops|);
    StalledStart(s, |s.table.hops|, 0);
    RunOne(s, StartSweep);
  }

  /** Reaching the start of a sweep by a run. */
  ghost predicate Reaches(s: Prober, events: seq<Event>, hops: nat, n: nat)
    requires WellFormed(s)
  {
    Stalled(Run(s, events), s.slice, hops, n)
  }

  lemma StallMore(s: Prober, first: seq<Event>, hops: nat, n: nat) returns (events: seq<Event>)
    requires WellFormed(s) && Reaches(s, first, hops, n) && AllSent(n + 1, hops) <= s.slice.range
    ensures Reaches(s, events, hops, n + 1)
  {
    hide Stalled, Run, WellFormed, AllSent;
    var next := StallOnce(Run(s, first), s.slice, hops, n);
    RunAppend(s, first, next);
    events := first + next;
  }

  /** n whole sweeps in a row, as long as the range lasts. */
  lemma {:induction false} StallFor(s: Prober, hops: nat, n: nat) returns (events: seq<Event>)
    requires Initial(s) && hops == |s.table.hops| && AllSent(n, hops) <= s.slice.range
    ensures WellFormed(s) && Reaches(s, events, hops, n)
    decreases n
  {
    hide Initial, WellFormed, Reaches, AllSent;
    InitialWellFormed(s);
    if n == 0 {
      StallFirst(s);
      events := [StartSweep];
    } else {
      AllSentGrows(n - 1, hops);
      var first := StallFor(s, hops, n - 1);
      events := StallMore(s, first, hops, n - 1);
    }
  }

  lemma FreshCursor(s: Prober)
    requires Initial(s)
    ensures s.cursor == 0
  {
  }

  lemma StalledMeans(v: Prober, sl: Slice, hops: nat, n: nat)
    requires Stalled(v, sl, hops, n)
    ensures Filling(v, 0) && JustStarted(v) && v.slice == sl
    ensures |v.threads| == |v.table.hops| == hops && v.start == v.cursor == |v.held| == AllSent(n, hops)
  {
  }

  /** As many whole sweeps as the range holds leave a sweep that does not fit. */
  lemma {:induction false} StalledProberOverfills(s: Prober) returns (events: seq<Event>)
    requires Initial(s) && |s.table.hops| >= 1
    ensures var v := Run(s, events);
            && JustStarted(v) && !Fits(v) && v.start <= s.slice.range
            && v.slice == s.slice && |v.threads| == |s.table.hops|
  {
    hide WellFormed, Initial, Run, Stalled, Filling, JustStarted;
    InitialWellFormed(s);
    var r, hops := s.slice.range, |s.table.hops|;
    Modular.Quotient(r, hops);
    var n := r / hops;
    assert n * hops == hops * n;
    events := StallFor(s, hops, n);
    assert Reaches(s, events, hops, n);
    StalledMeans(Run(s, events), s.slice, hops, n);
  }

  /** Every prober with at least two hops, left to stall, comes to such a sweep, and from there some
      interleaving leaves a hop counter that no map entry backs. */
  lemma {:induction false} StalledProberIsUnsafe(s: Prober) returns (events: seq<Event>)
    requires Initial(s) && |s.table.hops| >= 2
    ensures !Balanced(Run(s, events).table)
  {
    hide WellFormed, Initial, Run, JustStarted, SameSweep, Balanced, Fits, ReachableLap, Seamless, Distinct;
    InitialWellFormed(s);
    var first := StalledProberOverfills(s);
    var v := Run(s, first);
    BeforeTheSeam(v.slice, v.start + 2 * v.slice.range);
    var i := OverfullHasLap(v);
    var twice, torn := LapIsUnsafe(v, i, i + v.slice.range);
    RunAppend(s, first, torn);
    events := first + torn;
  }
}
