/** The TCP prober under a clock: when the age-out pass keeps the port range from filling up
    (internal/probe/probe_tcp_unix.go, probe.go). */
module TcpTiming {
  import opened Prelude
  import Modular
  import opened HopStats
  import opened ProbeTable
  import opened PortAllocator
  import PortRange
  import opened TcpSweep
  import TcpLaps

  /** History: the latest clock reading; for each sweep the time of its latest registration, or of its start;
      the cutoff of the latest age-out, and whether it came after the latest sweep; and the sweep to which
      each live probe belongs. */
  datatype Log = Log(now: int, lastSent: seq<int>, cutoff: int, aged: bool, tags: map<Uint16, nat>)

  datatype Clocked = Clocked(interval: int, prober: Prober, log: Log)

  datatype Timed = Start(t: int) | Act(e: Event, t: int) | Emit(t: int)

  /** What a goroutine or the receive loop does by itself. */
  predicate Internal(e: Event, t: int) {
    !e.StartSweep? && !e.AgeOut? && (e.Enlist? ==> e.now == t)
  }

  /** The order Run imposes: a sweep ends when all its goroutines have, then comes the age-out, then the
      next sweep. The clock does not go back. */
  predicate Enabled(c: Clocked, e: Timed) {
    && e.t >= c.log.now
    && match e
       case Start(_) => AllDone(c.prober.threads) && c.log.aged
       case Act(a, t) => Internal(a, t) && c.log.lastSent != []
       case Emit(_) => AllDone(c.prober.threads) && c.log.lastSent != []
  }

  function Registers(s: Prober, e: Event): bool { e.Enlist? && StageOf(s, e.ttl).Allocated? }

  function Still<T>(tags: map<Uint16, T>, live: set<Uint16>): map<Uint16, T> {
    map k | k in tags && k in live :: tags[k]
  }

  function Tagged(c: Clocked, e: Event): map<Uint16, nat>
    requires c.log.lastSent != []
  {
    if Registers(c.prober, e) then c.log.tags[StageOf(c.prober, e.ttl).port := |c.log.lastSent| - 1] else c.log.tags
  }

  /** An event that is not enabled changes nothing. */
  function TimedStep(c: Clocked, e: Timed): (r: Clocked)
    requires WellFormed(c.prober)
    ensures WellFormed(r.prober) && r.prober.slice == c.prober.slice && r.interval == c.interval
  {
    if !Enabled(c, e) then c
    else
      match e
      case Start(t) =>
        Clocked(c.interval, Step(c.prober, StartSweep),
                c.log.(now := t, lastSent := c.log.lastSent + [t], aged := false))
      case Act(a, t) =>
        var u := Step(c.prober, a);
        Clocked(c.interval, u,
                c.log.(now := t,
                       lastSent := if Registers(c.prober, a) then c.log.lastSent[|c.log.lastSent| - 1 := t]
                                   else c.log.lastSent,
                       tags := Still(Tagged(c, a), u.table.inflight.Keys)))
      case Emit(t) =>
        var cutoff := t - LossTimeout(c.interval);
        var u := Step(c.prober, AgeOut(cutoff));
        Clocked(c.interval, u,
                c.log.(now := t, cutoff := cutoff, aged := true, tags := Still(c.log.tags, u.table.inflight.Keys)))
  }

  function TimedRun(c: Clocked, events: seq<Timed>): (r: Clocked)
    requires WellFormed(c.prober)
    ensures WellFormed(r.prober) && r.prober.slice == c.prober.slice && r.interval == c.interval
  {
    if events == [] then c else TimedStep(TimedRun(c, Front(events)), Last(events))
  }

  /** A prober as NewTCP builds it, with the port range computed for its interval and hops. */
  ghost predicate Begins(c: Clocked) {
    && c.interval >= 100_000_000 && 1 <= |c.prober.table.hops| <= 255
    && Initial(c.prober)
    && c.prober.slice.range == PortRange.ComputeRangeSize(c.interval, |c.prober.table.hops|)
    && c.log.lastSent == [] && c.log.aged && c.log.tags == map[]
  }

  // ------------------------------------------------------------------
  // What every run keeps
  // ------------------------------------------------------------------

  ghost function OfSweep(tags: map<Uint16, nat>, a: nat): set<Uint16> { set k | k in tags && tags[k] == a }

  function Unregistered(threads: seq<Stage>): set<int> {
    set i | 0 <= i < |threads| && (threads[i].Waiting? || threads[i].Allocated?)
  }

  ghost predicate Ascends(l: seq<int>, now: int) {
    && (forall i, j | 0 <= i <= j < |l| :: l[i] <= l[j])
    && (forall i | 0 <= i < |l| :: l[i] <= now)
  }

  /** A live probe belongs to a sweep that had sent it by the time on record. */
  ghost predicate Recorded(l: Log, inflight: map<Uint16, Entry>) {
    && l.tags.Keys == inflight.Keys
    && (forall k | k in inflight :: l.tags[k] < |l.lastSent| && inflight[k].sentAt <= l.lastSent[l.tags[k]])
    && (l.aged ==> forall k | k in inflight :: inflight[k].sentAt >= l.cutoff)
  }

  /** A sweep has at most one live probe per hop, and none for a goroutine that has yet to register. */
  ghost predicate Counted(c: Clocked) {
    && (forall a: nat :: |OfSweep(c.log.tags, a)| <= |c.prober.table.hops|)
    && (c.log.lastSent != [] ==>
          |OfSweep(c.log.tags, |c.log.lastSent| - 1)| + |Unregistered(c.prober.threads)| <= |c.prober.threads|)
  }

  ghost predicate Kept(c: Clocked) {
    && WellFormed(c.prober)
    && c.interval >= 100_000_000 && 1 <= |c.prober.table.hops| <= 255
    && c.prober.slice.range == PortRange.ComputeRangeSize(c.interval, |c.prober.table.hops|)
    && Ascends(c.log.lastSent, c.log.now)
    && Recorded(c.log, c.prober.table.inflight)
    && Counted(c)
    && (c.log.aged ==> AllDone(c.prober.threads))
  }

  lemma {:induction false} StillSmaller(tags: map<Uint16, nat>, live: set<Uint16>, a: nat)
    ensures |OfSweep(Still(tags, live), a)| <= |OfSweep(tags, a)|
  {
    SubsetCard(OfSweep(Still(tags, live), a), OfSweep(tags, a));
  }

  /** Any step of the prober that registers nothing only takes probes away. */
  lemma StepShrinks(s: Prober, e: Event)
    requires WellFormed(s) && !e.StartSweep? && !Registers(s, e)
    ensures var t := Step(s, e).table;
            && t.inflight.Keys <= s.table.inflight.Keys
            && (forall k | k in t.inflight :: t.inflight[k] == s.table.inflight[k])
            && |t.hops| == |s.table.hops|
            && |Step(s, e).threads| == |s.threads|
            && Unregistered(Step(s, e).threads) <= Unregistered(s.threads)
  {
    hide Live, Replied, NextSrcPort, Tries;
  }

  lemma DoneStaysDone(s: Prober, e: Event)
    requires WellFormed(s) && AllDone(s.threads) && !e.StartSweep?
    ensures AllDone(Step(s, e).threads) && !Registers(s, e)
  {
    hide Live, Replied, NextSrcPort, Tries;
    assert StageOf(s, 0) == Done;
    forall ttl | 1 <= ttl <= |s.threads|
      ensures StageOf(s, ttl) == Done
    {
      assert s.threads[ttl - 1] in s.threads;
    }
  }

  lemma NoneOfSweep(tags: map<Uint16, nat>, a: nat)
    requires forall k | k in tags :: tags[k] < a
    ensures |OfSweep(tags, a)| == 0
  {
    assert OfSweep(tags, a) == {};
  }

  lemma StartKept(c: Clocked, e: Timed)
    requires Kept(c) && e.Start? && Enabled(c, e)
    ensures Kept(TimedStep(c, e))
  {
    hide PortRange.ComputeRangeSize, OfSweep;
    var r := TimedStep(c, e);
    NoneOfSweep(c.log.tags, |c.log.lastSent|);
    SubsetCard(Unregistered(r.prober.threads), Range(|r.prober.threads|));
  }

  lemma EmitKept(c: Clocked, e: Timed)
    requires Kept(c) && e.Emit? && Enabled(c, e)
    ensures Kept(TimedStep(c, e))
  {
    hide PortRange.ComputeRangeSize, OfSweep, LossTimeout, Live;
    var r := TimedStep(c, e);
    forall a: nat
      ensures |OfSweep(r.log.tags, a)| <= |OfSweep(c.log.tags, a)|
    {
      StillSmaller(c.log.tags, r.prober.table.inflight.Keys, a);
    }
  }

  lemma QuietKept(c: Clocked, e: Timed)
    requires Kept(c) && e.Act? && Enabled(c, e) && !Registers(c.prober, e.e)
    ensures Kept(TimedStep(c, e))
  {
    hide PortRange.ComputeRangeSize, OfSweep, Step, Unregistered, AllDone;
    var r := TimedStep(c, e);
    StepShrinks(c.prober, e.e);
    SubsetCard(Unregistered(r.prober.threads), Unregistered(c.prober.threads));
    if c.log.aged {
      DoneStaysDone(c.prober, e.e);
    }
    forall a: nat
      ensures |OfSweep(r.log.tags, a)| <= |OfSweep(c.log.tags, a)|
    {
      StillSmaller(c.log.tags, r.prober.table.inflight.Keys, a);
    }
  }

  lemma OneMoreTag(tags: map<Uint16, nat>, p: Uint16, n: nat, a: nat)
    ensures |OfSweep(tags[p := n], a)| <= |OfSweep(tags, a)| + (if a == n then 1 else 0)
  {
    SubsetCard(OfSweep(tags[p := n], a), OfSweep(tags, a) + (if a == n then {p} else {}));
  }

  lemma OneFewerUnregistered(s: Prober, e: Event)
    requires WellFormed(s) && Registers(s, e)
    ensures |Unregistered(Step(s, e).threads)| + 1 == |Unregistered(s.threads)|
    ensures |Step(s, e).threads| == |s.threads|
  {
    assert Unregistered(Step(s, e).threads) == Unregistered(s.threads) - {e.ttl - 1};
  }

  lemma RegisteringKept(c: Clocked, e: Timed)
    requires Kept(c) && e.Act? && Enabled(c, e) && Registers(c.prober, e.e)
    ensures Kept(TimedStep(c, e))
  {
    hide PortRange.ComputeRangeSize, OfSweep, Unregistered, AllDone;
    var r, n := TimedStep(c, e), |c.log.lastSent| - 1;
    var p := StageOf(c.prober, e.e.ttl).port;
    if c.log.aged {
      DoneStaysDone(c.prober, e.e);
    }
    OneFewerUnregistered(c.prober, e.e);
    assert r.log.tags == c.log.tags[p := n];
    forall a: nat
      ensures |OfSweep(r.log.tags, a)| <= |OfSweep(c.log.tags, a)| + (if a == n then 1 else 0)
    {
      OneMoreTag(c.log.tags, p, n, a);
    }
  }

  lemma TimedStepKept(c: Clocked, e: Timed)
    requires Kept(c)
    ensures Kept(TimedStep(c, e))
  {
    hide Kept, Registers;
    assert WellFormed(c.prober) by {
      KeptIsWellFormed(c);
    }
    if Enabled(c, e) {
      match e
      case Start(_) => StartKept(c, e);
      case Emit(_) => EmitKept(c, e);
      case Act(a, _) =>
        if Registers(c.prober, a) {
          RegisteringKept(c, e);
        } else {
          QuietKept(c, e);
        }
    }
  }

  lemma KeptIsWellFormed(c: Clocked)
    requires Kept(c)
    ensures WellFormed(c.prober)
  {
  }

  lemma BeginsKept(c: Clocked)
    requires Begins(c)
    ensures Kept(c)
  {
    hide PortRange.ComputeRangeSize;
    forall a: nat
      ensures |OfSweep(c.log.tags, a)| == 0
    {
      NoneOfSweep(c.log.tags, a);
    }
  }

  lemma {:induction false} TimedRunKept(c: Clocked, events: seq<Timed>)
    requires Begins(c)
    ensures Kept(TimedRun(c, events))
  {
    assert WellFormed(c.prober);
    hide Begins, Kept, TimedStep;
    if events == [] {
      BeginsKept(c);
    } else {
      TimedRunKept(c, Front(events));
      TimedStepKept(TimedRun(c, Front(events)), Last(events));
    }
  }

  // ------------------------------------------------------------------
  // When the range is large enough
  // ------------------------------------------------------------------

  /** Every probe of the sweep as many sweeps ago as the range was sized for had been sent before the cutoff
      of the latest age-out. */
  predicate Timely(l: Log, window: nat) {
    window >= 1 && (|l.lastSent| >= window ==> l.lastSent[|l.lastSent| - window] < l.cutoff)
  }

  lemma {:induction false} FewSweepsFewProbes(
      tags: map<Uint16, nat>, keys: set<Uint16>, from: nat, until: nat, hops: nat)
    requires from <= until && keys <= tags.Keys
    requires forall k | k in keys :: from <= tags[k] < until
    requires forall a: nat :: |OfSweep(tags, a)| <= hops
    ensures |keys| <= hops * (until - from)
    decreases until
  {
    if from == until {
      assert keys == {};
    } else {
      var last := OfSweep(tags, until - 1) * keys;
      SubsetCard(last, OfSweep(tags, until - 1));
      FewSweepsFewProbes(tags, keys - last, from, until - 1, hops);
      SubsetCard(last, keys);
      Modular.SplitSum(hops, until - 1 - from, 1);
    }
  }

  lemma SentSinceCutoff(l: Log, inflight: map<Uint16, Entry>, k: Uint16, window: nat)
    requires Recorded(l, inflight) && Ascends(l.lastSent, l.now) && l.aged && Timely(l, window) && k in inflight
    ensures |l.lastSent| - window < l.tags[k] < |l.lastSent|
  {
    var n := |l.lastSent|;
    if n >= window {
      assert l.lastSent[Min(l.tags[k], n - window)] <= l.lastSent[n - window];
    }
  }

  lemma MoreSweepsMoreProbes(probes: nat, hops: nat, a: nat, b: nat)
    requires probes <= hops * a && a <= b
    ensures probes <= hops * b
  {
    Modular.SplitSum(hops, a, b - a);
  }

  lemma TimelyNeedsWindow(l: Log, window: nat)
    requires Timely(l, window)
    ensures window >= 1
  {
  }

  lemma {:induction false} TimelyIsLight(c: Clocked, window: nat)
    requires Kept(c) && c.log.aged && Timely(c.log, window)
    ensures |c.prober.table.inflight.Keys| <= |c.prober.table.hops| * (window - 1)
  {
    var l, inflight, hops, n := c.log, c.prober.table.inflight, |c.prober.table.hops|, |c.log.lastSent|;
    assert l.tags.Keys == inflight.Keys && forall a: nat :: |OfSweep(l.tags, a)| <= hops;
    assert Recorded(l, inflight) && Ascends(l.lastSent, l.now);
    hide Kept, Counted, Recorded, Ascends, OfSweep, Timely;
    var from := if n < window then 0 else n - window + 1;
    TimelyNeedsWindow(l, window);
    forall k | k in inflight
      ensures from <= l.tags[k] < n
    {
      SentSinceCutoff(l, inflight, k, window);
    }
    FewSweepsFewProbes(l.tags, inflight.Keys, from, n, hops);
    MoreSweepsMoreProbes(|inflight.Keys|, hops, n - from, window - 1);
  }

  lemma StartedFrom(s: Prober)
    requires WellFormed(s) && AllDone(s.threads)
    ensures var u := Step(s, StartSweep);
            && u.start == s.cursor && u.slice == s.slice
            && u.held == s.table.inflight.Keys && |u.threads| <= |s.table.hops|
  {
  }

  /** Then the next sweep fits. */
  lemma {:induction false} TimelySweepFits(c: Clocked, t: int)
    requires Kept(c) && Enabled(c, Start(t)) && Timely(c.log, PortRange.SweepsPerWindow(c.interval))
    ensures Fits(Step(c.prober, StartSweep))
  {
    var w, hops := PortRange.SweepsPerWindow(c.interval), |c.prober.table.hops|;
    assert w >= 1;
    TimelyIsLight(c, w);
    PortRange.RangeSizeBounds(c.interval, hops);
    hide PortRange.SweepsPerWindow, PortRange.ComputeRangeSize, Counted, Recorded, Ascends, Timely, Step;
    StartedFrom(c.prober);
    Modular.SplitSum(hops, w, -1);
  }

  /** The window is never shorter than the loss timeout; at intervals of a second or more it leaves a whole
      interval to spare. */
  lemma WindowSlack(interval: int)
    requires interval >= 100_000_000
    ensures var slack := (PortRange.SweepsPerWindow(interval) - 1) * interval - LossTimeout(interval);
            0 <= slack && (interval >= 1_000_000_000 ==> slack >= interval)
  {
    var lt := LossTimeout(interval);
    Modular.Quotient(lt, interval);
    if interval >= 1_000_000_000 {
      assert lt == 2 * interval;
      Modular.RemainderUnique(lt, interval, 2, 0);
    } else {
      var q := lt / interval + (if lt % interval > 0 then 1 else 0);
      assert interval * (lt / interval + 1) == interval * (lt / interval) + interval;
      assert q * interval >= lt;
      Modular.MulMonotone(q, PortRange.SweepsPerWindow(interval) - 1, interval);
    }
  }

  /** A schedule that keeps pace is timely: the age-out comes at least window - 1 intervals, less some
      lateness smaller than the slack, after the last probe of the sweep that must have gone. */
  lemma PunctualIsTimely(l: Log, interval: int, lateness: int)
    requires interval >= 100_000_000
    requires var w := PortRange.SweepsPerWindow(interval);
             |l.lastSent| >= w ==>
               l.cutoff + LossTimeout(interval) >= l.lastSent[|l.lastSent| - w] + (w - 1) * interval - lateness
    requires lateness < (PortRange.SweepsPerWindow(interval) - 1) * interval - LossTimeout(interval)
    ensures Timely(l, PortRange.SweepsPerWindow(interval))
  {
    PortRange.SweepsBounded(interval);
  }

  /** Each sweep of the run starts timely, and with no lap across the wrap of the cursor open to it. */
  ghost predicate TimelyAtStarts(c: Clocked, events: seq<Timed>)
    requires WellFormed(c.prober) && c.interval > 0
  {
    events != [] ==>
      && TimelyAtStarts(c, Front(events))
      && var u := TimedRun(c, Front(events));
         Last(events).Start? && Enabled(u, Last(events)) ==>
           && Timely(u.log, PortRange.SweepsPerWindow(c.interval))
           && TcpLaps.ClearOfSeam(Step(u.prober, StartSweep))
  }

  /** What the prober itself sees of a timed event. */
  function EventOf(c: Clocked, e: Timed): Event {
    match e
    case Start(_) => StartSweep
    case Act(a, _) => a
    case Emit(t) => AgeOut(t - LossTimeout(c.interval))
  }

  lemma ProberSteps(c: Clocked, e: Timed)
    requires WellFormed(c.prober) && Enabled(c, e)
    ensures TimedStep(c, e).prober == Step(c.prober, EventOf(c, e))
    ensures e.Start? <==> EventOf(c, e).StartSweep?
  {
    hide Step;
  }

  lemma TimelyStartIsRoomy(c: Clocked, t: int)
    requires Kept(c) && Enabled(c, Start(t)) && Timely(c.log, PortRange.SweepsPerWindow(c.interval))
    requires c.prober.slice.Valid() && TcpLaps.ClearOfSeam(Step(c.prober, StartSweep))
    ensures Roomy(Step(c.prober, StartSweep))
  {
    TimelySweepFits(c, t);
    assert WellFormed(c.prober) && AllDone(c.prober.threads);
    hide Kept, Timely, Roomy, PortRange.SweepsPerWindow, Step, Fits, TcpLaps.ClearOfSeam;
    StartedFrom(c.prober);
    TcpLaps.ClearAndFittingIsRoomy(Step(c.prober, StartSweep));
  }

  lemma TimedStepSafe(c: Clocked, e: Timed)
    requires Safe(c.prober) && Kept(c)
    requires e.Start? && Enabled(c, e) ==>
               && Timely(c.log, PortRange.SweepsPerWindow(c.interval))
               && TcpLaps.ClearOfSeam(Step(c.prober, StartSweep))
    ensures Safe(TimedStep(c, e).prober)
  {
    assert WellFormed(c.prober) && c.prober.slice.Valid();
    if Enabled(c, e) {
      ProberSteps(c, e);
      if e.Start? {
        TimelyStartIsRoomy(c, e.t);
      }
      hide Safe, Kept, Roomy, Step, TimedStep, Enabled, EventOf, TcpLaps.ClearOfSeam;
      StepKeeps(c.prober, EventOf(c, e));
    }
  }

  /** From a fresh prober, over every interleaving and every clock that keeps each sweep timely: no port is
      handed out twice in a sweep and every counter is backed by the map. */
  lemma {:induction false} TimelyRunIsSafe(c: Clocked, events: seq<Timed>)
    requires Begins(c) && TimelyAtStarts(c, events)
    ensures Safe(TimedRun(c, events).prober)
  {
    assert WellFormed(c.prober);
    if events == [] {
      InitialSafe(c.prober);
    } else {
      hide Begins, Safe, Kept, Timely, TimedStep, TcpLaps.ClearOfSeam, Step, PortRange.SweepsPerWindow;
      TimelyRunIsSafe(c, Front(events));
      TimedRunKept(c, Front(events));
      TimedStepSafe(TimedRun(c, Front(events)), Last(events));
    }
  }
}
