/** The ICMP prober over whole runs: sweeps, replies and age-outs sharing one 16-bit sequence counter
    (internal/probe/probe_unix.go). */
module IcmpSweep {
  import opened Prelude
  import opened HopStats
  import opened ProbeTable

  const MIN_MTR_INTERVAL: int := 100_000_000
  const MAX_HOPS: int := 255

  /** Post-increment of a uint16 that skips zero. */
  function NextSeq(seqNo: Uint16): Uint16 {
    var n := (seqNo + 1) % 0x1_0000;
    if n == 0 then 1 else n
  }

  datatype Phase = Idle | Sweeping(next: int, maxTTL: int)

  /** Which send a live probe was, and in which sweep. */
  datatype Tag = Tag(index: nat, sweep: nat)

  /** History: the number of sends, each sweep's start time and the sends before it, and the latest
      clock reading. */
  datatype Log = Log(sends: nat, starts: seq<int>, counts: seq<nat>, now: int)

  /** The prober's state; tags and log are history. */
  datatype Prober = Prober(
    interval: int, nextSeq: Uint16, table: Table, phase: Phase, tags: map<Uint16, Tag>, log: Log)

  datatype Event =
    | StartSweep(t: int)
    | Send(t: int)
    | Emit(t: int)
    | Answer(key: Uint16, src: Option<nat>, now: int, echo: bool)

  function SweepWidth(t: Table): int {
    if 0 < t.terminus < |t.hops| then t.terminus else |t.hops|
  }

  /** The order Run imposes, a clock that does not go back, and a ticker that buffers one tick: a sweep
      may start late and the next one early, but two of them never fit inside one interval. */
  predicate Enabled(s: Prober, e: Event) {
    match e
    case StartSweep(t) =>
      s.phase == Idle && t >= s.log.now
      && (|s.log.starts| >= 2 ==> t >= s.log.starts[|s.log.starts| - 2] + s.interval)
    case Send(t) =>
      s.log.starts != [] && s.phase.Sweeping? && 1 <= s.phase.next <= s.phase.maxTTL <= |s.table.hops|
      && t >= s.log.now
    case Emit(t) => s.phase.Sweeping? && s.phase.next > s.phase.maxTTL && t >= s.log.now
    case Answer(_, _, _, _) => true
  }

  /** Each event is one lock-held region; an event that is not enabled changes nothing. */
  function Step(s: Prober, e: Event): Prober {
    if !Enabled(s, e) then s
    else
      match e
      case StartSweep(t) =>
        s.(phase := Sweeping(1, SweepWidth(s.table)),
           log := Log(s.log.sends, s.log.starts + [t], s.log.counts + [s.log.sends], t))
      case Send(t) =>
        s.(nextSeq := NextSeq(s.nextSeq),
           table := Register(s.table, s.nextSeq, s.phase.next, t),
           phase := s.phase.(next := s.phase.next + 1),
           tags := s.tags[s.nextSeq := Tag(s.log.sends, |s.log.starts| - 1)],
           log := s.log.(sends := s.log.sends + 1, now := t))
      case Emit(t) =>
        var cutoff := t - LossTimeout(s.interval);
        s.(table := Prune(s.table, cutoff), phase := Idle,
           tags := s.tags - Stale(s.table.inflight, cutoff), log := s.log.(now := t))
      case Answer(key, src, now, echo) =>
        s.(table := Reply(s.table, key, src, now, echo), tags := s.tags - {key})
  }

  function Run(s: Prober, events: seq<Event>): Prober {
    if events == [] then s else Step(Run(s, Front(events)), Last(events))
  }

  /** A prober as New builds it. */
  ghost predicate Initial(s: Prober) {
    && s.interval >= MIN_MTR_INTERVAL && 1 <= |s.table.hops| <= MAX_HOPS
    && FreshTable(s.table)
    && s.nextSeq == 1 && s.phase == Idle
    && s.tags == map[] && s.log.sends == 0 && s.log.starts == [] && s.log.counts == []
  }

  // ------------------------------------------------------------------
  // What every reachable state satisfies
  // ------------------------------------------------------------------

  function SeqOf(index: nat): Uint16 { index % 65535 + 1 }

  /** How sweep k relates to the two before it. */
  ghost predicate Follows(interval: int, starts: seq<int>, counts: seq<nat>, k: nat)
    requires k < |starts| == |counts|
  {
    && (k >= 1 ==> starts[k - 1] <= starts[k] && counts[k - 1] <= counts[k] <= counts[k - 1] + MAX_HOPS)
    && (k >= 2 ==> starts[k - 2] + interval <= starts[k])
  }

  /** Sweep starts are ordered, spaced, and each sweep sends at most one probe per hop. */
  ghost predicate Schedule(interval: int, l: Log) {
    && |l.starts| == |l.counts|
    && (forall k | 0 <= k < |l.starts| :: Follows(interval, l.starts, l.counts, k))
    && (l.starts == [] ==> l.sends == 0)
    && (l.starts != [] ==> Last(l.starts) <= l.now && Last(l.counts) <= l.sends <= Last(l.counts) + MAX_HOPS)
  }

  ghost predicate PhaseFits(l: Log, phase: Phase, hops: nat) {
    phase.Sweeping? ==>
      && 1 <= phase.next <= phase.maxTTL + 1 && phase.maxTTL <= hops
      && l.counts != [] && l.sends == Last(l.counts) + phase.next - 1
  }

  /** Live probes cannot be more than this many sweeps old. */
  const MAX_AGE: nat := 43

  ghost predicate Recent(l: Log, idle: bool, key: Uint16, tag: Tag, sentAt: int)
    requires |l.starts| == |l.counts|
  {
    && tag.index < l.sends && SeqOf(tag.index) == key
    && tag.sweep < |l.starts| && l.counts[tag.sweep] <= tag.index
    && sentAt <= (if tag.sweep + 1 < |l.starts| then l.starts[tag.sweep + 1] else l.now)
    && |l.starts| - tag.sweep <= (if idle then MAX_AGE else MAX_AGE + 1)
  }

  ghost predicate AllRecent(s: Prober)
    requires |s.log.starts| == |s.log.counts|
  {
    && s.tags.Keys == s.table.inflight.Keys
    && (forall key | key in s.table.inflight ::
          Recent(s.log, s.phase == Idle, key, s.tags[key], s.table.inflight[key].sentAt))
  }

  ghost predicate Probed(s: Prober) {
    && (s.log.starts == [] ==> s.phase == Idle && s.table.inflight == map[] && s.table.terminus == 0)
    && (|s.log.starts| == 1 && s.phase.Sweeping? ==> s.phase.maxTTL == |s.table.hops|)
    && (forall i | 0 <= i < ProbedHops(s) :: s.table.hops[i].sent > 0)
    && (forall i | 0 <= i < |s.table.hops| :: s.table.hops[i].sent >= 0)
  }

  /** The hops that have been probed at least once. */
  ghost function ProbedHops(s: Prober): (n: int)
    ensures n <= |s.table.hops|
  {
    if s.log.starts == [] then 0
    else if |s.log.starts| == 1 && s.phase.Sweeping? then Min(s.phase.next - 1, |s.table.hops|)
    else |s.table.hops|
  }

  ghost predicate Inv(s: Prober) {
    && s.interval >= MIN_MTR_INTERVAL && 1 <= |s.table.hops| <= MAX_HOPS
    && s.nextSeq == SeqOf(s.log.sends)
    && Balanced(s.table)
    && Schedule(s.interval, s.log)
    && PhaseFits(s.log, s.phase, |s.table.hops|)
    && AllRecent(s)
    && Probed(s)
  }

  lemma {:induction false} StartsSpread(interval: int, l: Log, j: nat, k: nat)
    requires Schedule(interval, l) && j + 2 * k < |l.starts|
    ensures l.starts[j] + k * interval <= l.starts[j + 2 * k]
    decreases k
  {
    if k > 0 {
      StartsSpread(interval, l, j, k - 1);
      assert k * interval == (k - 1) * interval + interval;
      assert Follows(interval, l.starts, l.counts, j + 2 * k);
    }
  }

  lemma {:induction false} StartsOrdered(interval: int, l: Log, j: nat, k: nat)
    requires Schedule(interval, l) && j <= k < |l.starts|
    ensures l.starts[j] <= l.starts[k]
    ensures l.counts[k] <= l.counts[j] + MAX_HOPS * (k - j)
    decreases k
  {
    if j < k {
      StartsOrdered(interval, l, j, k - 1);
      assert Follows(interval, l.starts, l.counts, k);
    }
  }

  lemma RecentIsNear(interval: int, l: Log, idle: bool, key: Uint16, tag: Tag, sentAt: int)
    requires Schedule(interval, l) && Recent(l, idle, key, tag, sentAt)
    ensures l.sends - tag.index <= MAX_HOPS * (MAX_AGE + 1)
    ensures key != SeqOf(l.sends)
  {
    StartsOrdered(interval, l, tag.sweep, |l.starts| - 1);
  }

  /** A live probe is among the last 11220 sends, so no live probe holds the next sequence number. */
  lemma {:induction false} NextSeqIsFree(s: Prober)
    requires Inv(s)
    ensures forall key | key in s.table.inflight :: s.log.sends - s.tags[key].index <= MAX_HOPS * (MAX_AGE + 1)
    ensures s.nextSeq !in s.table.inflight
  {
    hide Balanced, Schedule, Recent, Probed, SeqOf;
    forall key | key in s.table.inflight
      ensures s.log.sends - s.tags[key].index <= MAX_HOPS * (MAX_AGE + 1) && key != s.nextSeq
    {
      RecentIsNear(s.interval, s.log, s.phase == Idle, key, s.tags[key], s.table.inflight[key].sentAt);
    }
  }

  lemma RecentAcrossStart(l: Log, key: Uint16, tag: Tag, sentAt: int, t: int)
    requires |l.starts| == |l.counts| && Recent(l, true, key, tag, sentAt) && t >= l.now
    ensures Recent(Log(l.sends, l.starts + [t], l.counts + [l.sends], t), false, key, tag, sentAt)
  {
  }

  lemma ScheduleAfterStart(interval: int, l: Log, t: int)
    requires Schedule(interval, l) && t >= l.now
    requires |l.starts| >= 2 ==> t >= l.starts[|l.starts| - 2] + interval
    ensures Schedule(interval, Log(l.sends, l.starts + [t], l.counts + [l.sends], t))
  {
    var n, starts, counts := |l.starts|, l.starts + [t], l.counts + [l.sends];
    forall k | 0 <= k < |starts|
      ensures Follows(interval, starts, counts, k)
    {
      if k < n {
        assert Follows(interval, l.starts, l.counts, k);
      }
    }
  }

  lemma ProbedAfterStart(s: Prober, e: Event)
    requires Probed(s) && e.StartSweep? && Enabled(s, e)
    requires TerminusIsLeast(s.table)
    ensures Probed(Step(s, e))
  {
  }

  lemma StartSweepKeeps(s: Prober, e: Event)
    requires Inv(s) && e.StartSweep? && Enabled(s, e)
    ensures Inv(Step(s, e))
  {
    assert TerminusIsLeast(s.table);
    hide Balanced, Recent, SeqOf, Schedule, Probed, TerminusIsLeast;
    ScheduleAfterStart(s.interval, s.log, e.t);
    ProbedAfterStart(s, e);
    var u := Step(s, e);
    forall key | key in u.table.inflight
      ensures Recent(u.log, false, key, u.tags[key], u.table.inflight[key].sentAt)
    {
      RecentAcrossStart(s.log, key, s.tags[key], s.table.inflight[key].sentAt, e.t);
    }
  }

  lemma RecentAcrossSend(l: Log, key: Uint16, tag: Tag, sentAt: int, t: int)
    requires |l.starts| == |l.counts| && Recent(l, false, key, tag, sentAt) && t >= l.now
    ensures Recent(l.(sends := l.sends + 1, now := t), false, key, tag, sentAt)
  {
  }

  lemma RecentWhenSent(interval: int, l: Log, t: int)
    requires Schedule(interval, l) && l.starts != [] && t >= l.now
    ensures Recent(l.(sends := l.sends + 1, now := t), false, SeqOf(l.sends), Tag(l.sends, |l.starts| - 1), t)
  {
  }

  lemma ScheduleAfterSend(interval: int, l: Log, phase: Phase, hops: nat, t: int)
    requires Schedule(interval, l) && PhaseFits(l, phase, hops) && phase.Sweeping? && phase.next <= phase.maxTTL
    requires hops <= MAX_HOPS && t >= l.now
    ensures var m := l.(sends := l.sends + 1, now := t);
            Schedule(interval, m) && PhaseFits(m, phase.(next := phase.next + 1), hops)
  {
  }

  lemma ProbedAfterSend(s: Prober, e: Event)
    requires Probed(s) && e.Send? && Enabled(s, e)
    ensures Probed(Step(s, e))
  {
  }

  lemma SendKeeps(s: Prober, e: Event)
    requires Inv(s) && e.Send? && Enabled(s, e)
    ensures Inv(Step(s, e))
  {
    hide Balanced, Recent, Schedule, PhaseFits, Probed, SeqOf, NextSeq;
    SeqCycles(s.log.sends, s.log.sends);
    ScheduleAfterSend(s.interval, s.log, s.phase, |s.table.hops|, e.t);
    ProbedAfterSend(s, e);
    var u := Step(s, e);
    NextSeqIsFree(s);
    RegisterFreshKeeps(s.table, s.nextSeq, s.phase.next, e.t);
    RecentWhenSent(s.interval, s.log, e.t);
    forall key | key in u.table.inflight
      ensures Recent(u.log, false, key, u.tags[key], u.table.inflight[key].sentAt)
    {
      if key != s.nextSeq {
        RecentAcrossSend(s.log, key, s.tags[key], s.table.inflight[key].sentAt, e.t);
      }
    }
  }

  lemma AnswerKeeps(s: Prober, e: Event)
    requires Inv(s) && e.Answer? && Enabled(s, e)
    ensures Inv(Step(s, e))
  {
    hide Balanced, Recent, Schedule, SeqOf;
    if e.key in s.table.inflight {
      SettleOwnKeeps(s.table, e.key, e.src, Millis(e.now - s.table.inflight[e.key].sentAt), e.echo);
    }
  }

  lemma LossWindowIsShort(interval: int)
    requires interval >= MIN_MTR_INTERVAL
    ensures LossTimeout(interval) < 21 * interval
  {
  }

  /** What survives the age-out was sent recently, so its sweep began recently. */
  lemma RecentAfterEmit(interval: int, l: Log, key: Uint16, tag: Tag, sentAt: int, t: int)
    requires Schedule(interval, l) && interval >= MIN_MTR_INTERVAL && t >= l.now
    requires Recent(l, false, key, tag, sentAt) && sentAt >= t - LossTimeout(interval)
    ensures Recent(l.(now := t), true, key, tag, sentAt)
  {
    var last := |l.starts| - 1;
    if tag.sweep + 43 <= last {
      StartsOrdered(interval, l, tag.sweep + 43, last);
      LossWindowIsShort(interval);
      StartsSpread(interval, l, tag.sweep + 1, 21);
    }
  }

  lemma EmitKeeps(s: Prober, e: Event)
    requires Inv(s) && e.Emit? && Enabled(s, e)
    ensures Inv(Step(s, e))
  {
    hide Balanced, Recent, SeqOf, LossTimeout;
    var cutoff := e.t - LossTimeout(s.interval);
    var u := Step(s, e);
    PruneKeeps(s.table, cutoff);
    forall key | key in u.table.inflight
      ensures Recent(u.log, true, key, u.tags[key], u.table.inflight[key].sentAt)
    {
      RecentAfterEmit(s.interval, s.log, key, s.tags[key], s.table.inflight[key].sentAt, e.t);
    }
  }

  lemma StepKeeps(s: Prober, e: Event)
    requires Inv(s)
    ensures Inv(Step(s, e))
  {
    if Enabled(s, e) {
      match e
      case StartSweep(_) => StartSweepKeeps(s, e);
      case Send(_) => SendKeeps(s, e);
      case Emit(_) => EmitKeeps(s, e);
      case Answer(_, _, _, _) => AnswerKeeps(s, e);
    }
  }

  lemma InitialInv(s: Prober)
    requires Initial(s)
    ensures Inv(s)
  {
    FreshIsBalanced(s.table);
  }

  lemma {:induction false} RunKeeps(s: Prober, events: seq<Event>)
    requires Initial(s)
    ensures Inv(Run(s, events))
  {
    if events == [] {
      InitialInv(s);
    } else {
      RunKeeps(s, Front(events));
      StepKeeps(Run(s, Front(events)), Last(events));
    }
  }

  /** In every reachable state the next sequence number is a valid one that no live probe holds, and
      every hop counter is backed by the map. */
  lemma {:induction false} SeqNeverReusedWhileLive(s: Prober, events: seq<Event>)
    requires Initial(s)
    ensures var u := Run(s, events);
            && 1 <= u.nextSeq <= 65535
            && u.nextSeq !in u.table.inflight
            && (forall key | key in u.table.inflight ::
                  key in u.tags && key == SeqOf(u.tags[key].index)
                  && 0 < u.log.sends - u.tags[key].index <= 11220)
            && Balanced(u.table)
            && (forall i | 0 <= i < |u.table.hops| :: 0.0 <= LossPct(u.table.hops[i]) <= 100.0)
  {
    RunKeeps(s, events);
    var u := Run(s, events);
    NextSeqIsFree(u);
    forall i | 0 <= i < |u.table.hops|
      ensures 0.0 <= LossPct(u.table.hops[i]) <= 100.0
    {
      BalancedLossInRange(u.table, i);
    }
  }

  /** The counter runs through 1..65535 in turn and never lands on zero. */
  lemma SeqCycles(index: nat, later: nat)
    ensures SeqOf(0) == 1
    ensures 1 <= SeqOf(index) <= 65535
    ensures SeqOf(index + 1) == NextSeq(SeqOf(index))
    ensures index < later < index + 65535 ==> SeqOf(later) != SeqOf(index)
  {
  }

  /** Everything the prober ever publishes is the contiguous table 1..cap, flagged at most in its last row. */
  lemma {:induction false} EmittedIsContiguous(s: Prober, events: seq<Event>, t: int)
    requires Initial(s)
    requires Enabled(Run(s, events), Emit(t))
    ensures var u := Step(Run(s, events), Emit(t)).table;
            && 0 <= u.terminus <= |u.hops|
            && var snap := BuildSnapshot(u);
            && |snap| == Cap(u)
            && (forall i | 0 <= i < |snap| :: snap[i] == StatOf(u.hops[i], i + 1))
            && (forall i | 0 <= i < |snap| :: snap[i].terminus ==> i == |snap| - 1)
            && (u.terminus > 0 ==> Last(snap).terminus)
  {
    RunKeeps(s, events);
    StepKeeps(Run(s, events), Emit(t));
    ContiguousSnapshot(Step(Run(s, events), Emit(t)).table);
  }
}
