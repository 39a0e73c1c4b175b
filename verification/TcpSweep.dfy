/** The TCP prober as a protocol over any number of sweeps: a goroutine per TTL, the receive loop and the
    age-out pass interleave their critical sections freely (internal/probe/probe_tcp_unix.go). A port is
    allocated in one critical section and registered in another. */
module TcpSweep {
  import opened Prelude
  import opened HopStats
  import opened ProbeTable
  import opened PortAllocator

  // ------------------------------------------------------------------
  // The protocol
  // ------------------------------------------------------------------

  /** Where the goroutine of one TTL stands. */
  datatype Stage = Waiting | Allocated(port: Uint16) | Registered(port: Uint16, sentAt: int) | Done

  /** The prober's state. handed, start, reach and held are history: the ports handed out in this sweep,
      the cursor when it began, where the cursor would stand had it never wrapped since, and the ports
      live when the sweep began. */
  datatype Prober = Prober(
    slice: Slice, cursor: Uint32, table: Table, threads: seq<Stage>,
    handed: seq<Uint16>, start: nat, reach: nat, held: set<Uint16>)

  datatype Event =
    | StartSweep
    | Allocate(ttl: int)
    | Enlist(ttl: int, now: int)
    | Reach(ttl: int, src: Option<nat>, now: int)
    | Fail(ttl: int)
    | GiveUp(ttl: int)
    | TimeExceeded(port: Uint16, src: Option<nat>, now: int)
    | AgeOut(cutoff: int)

  ghost predicate WellFormed(s: Prober) {
    s.slice.Valid() && |s.threads| <= |s.table.hops|
  }

  function SweepWidth(t: Table): nat {
    if 0 < t.terminus < |t.hops| then t.terminus else |t.hops|
  }

  predicate AllDone(threads: seq<Stage>) { forall x | x in threads :: x == Done }

  function StageOf(s: Prober, ttl: int): Stage {
    if 1 <= ttl <= |s.threads| then s.threads[ttl - 1] else Done
  }

  function WithStage(s: Prober, ttl: int, x: Stage): Prober
    requires 1 <= ttl <= |s.threads|
  {
    s.(threads := s.threads[ttl - 1 := x])
  }

  /** Each event is one lock-held region; an event that is not enabled changes nothing. */
  function Step(s: Prober, e: Event): (r: Prober)
    requires WellFormed(s)
    ensures WellFormed(r) && r.slice == s.slice
  {
    match e
    case StartSweep =>
      if AllDone(s.threads) then
        s.(threads := seq(SweepWidth(s.table), _ => Waiting), handed := [],
           start := s.cursor, reach := s.cursor, held := s.table.inflight.Keys)
      else s
    case Allocate(ttl) =>
      if !StageOf(s, ttl).Waiting? then s
      else
        var f := NextSrcPort(s.slice, s.cursor, s.table.inflight.Keys, s.slice.range);
        var u := s.(cursor := f.cursor,
                    reach := s.reach + Tries(s.slice, s.cursor, s.table.inflight.Keys, s.slice.range));
        if f.port == None then WithStage(u, ttl, Done)
        else WithStage(u.(handed := s.handed + [f.port.value]), ttl, Allocated(f.port.value))
    case Enlist(ttl, now) =>
      if !StageOf(s, ttl).Allocated? then s
      else
        var p := StageOf(s, ttl).port;
        WithStage(s.(table := Register(s.table, p, ttl, now)), ttl, Registered(p, now))
    case Reach(ttl, src, now) =>
      if !StageOf(s, ttl).Registered? then s
      else
        var x := StageOf(s, ttl);
        WithStage(s.(table := RecordTerminus(s.table, x.port, ttl, src, Millis(now - x.sentAt))), ttl, Done)
    case Fail(ttl) =>
      if !StageOf(s, ttl).Registered? then s
      else WithStage(s.(table := Rollback(s.table, StageOf(s, ttl).port, ttl)), ttl, Done)
    case GiveUp(ttl) =>
      if !StageOf(s, ttl).Registered? then s else WithStage(s, ttl, Done)
    case TimeExceeded(port, src, now) => s.(table := Reply(s.table, port, src, now, false))
    case AgeOut(cutoff) => s.(table := Prune(s.table, cutoff))
  }

  function Run(s: Prober, events: seq<Event>): (r: Prober)
    requires WellFormed(s)
    ensures WellFormed(r) && r.slice == s.slice
  {
    if events == [] then s else Step(Run(s, Front(events)), Last(events))
  }

  // ------------------------------------------------------------------
  // Safety
  // ------------------------------------------------------------------

  /** The walk of a sweep comes back, at position j, to the slot it saw at position i, and the goroutines
      are enough to hand out that slot twice and everything else that was free on the way. */
  ghost predicate Lap(s: Prober, i: nat, j: nat)
    requires s.slice.Valid()
  {
    && s.start <= i < j && At(s.slice, i) == At(s.slice, j)
    && |Walked(s.slice, s.start, j) - s.held - {At(s.slice, i)}| + 2 <= |s.threads|
  }

  /** What a sweep needs: known when it starts, from its cursor, its live ports and its width. */
  ghost predicate Roomy(s: Prober)
    requires s.slice.Valid()
  {
    forall i: nat, j: nat :: !Lap(s, i, j)
  }

  /** One slot per live port and per TTL. */
  predicate Fits(s: Prober) { |s.held| + |s.threads| <= s.slice.range }

  ghost predicate Distinct<T(!new)>(xs: seq<T>) { forall i, j | 0 <= i < j < |xs| :: xs[i] != xs[j] }

  function WaitingSet(threads: seq<Stage>): set<int> {
    set i | 0 <= i < |threads| && threads[i].Waiting?
  }

  ghost predicate HasPort(x: Stage) { x.Allocated? || x.Registered? }

  /** What a goroutine may rely on about its own port. */
  ghost predicate Owns(s: Prober, i: nat)
    requires i < |s.threads|
  {
    var x := s.threads[i];
    && (HasPort(x) ==> x.port in s.handed)
    && (x.Allocated? ==> x.port !in s.table.inflight)
    && (x.Registered? && x.port in s.table.inflight ==> s.table.inflight[x.port] == Entry(i + 1, x.sentAt))
  }

  ghost predicate PortsApart(threads: seq<Stage>) {
    forall i, j | 0 <= i < j < |threads| && HasPort(threads[i]) && HasPort(threads[j]) ::
      threads[i].port != threads[j].port
  }

  /** Everything the cursor passed since the sweep began was live then or has been handed out. */
  ghost predicate CursorLedger(s: Prober)
    requires s.slice.Valid()
  {
    && s.start <= s.reach && s.cursor == s.reach % TWO_TO_THE_32
    && Walked(s.slice, s.start, s.reach) <= Elems(s.handed) + s.held
    && Elems(s.handed) <= Walked(s.slice, s.start, s.reach)
    && s.table.inflight.Keys <= s.held + Elems(s.handed)
    && |s.handed| + |WaitingSet(s.threads)| <= |s.threads|
  }

  ghost predicate Safe(s: Prober) {
    && WellFormed(s)
    && Balanced(s.table)
    && Roomy(s)
    && CursorLedger(s)
    && Distinct(s.handed)
    && PortsApart(s.threads)
    && (forall i | 0 <= i < |s.threads| :: Owns(s, i))
  }

  /** Moving one goroutine on, without giving it a port it did not have, disturbs no other. */
  lemma StageChange(s: Prober, ttl: int, x: Stage)
    requires 1 <= ttl <= |s.threads| && x != Waiting
    requires HasPort(x) ==> HasPort(s.threads[ttl - 1]) && x.port == s.threads[ttl - 1].port
    requires PortsApart(s.threads)
    ensures PortsApart(WithStage(s, ttl, x).threads)
    ensures |WaitingSet(WithStage(s, ttl, x).threads)|
            == |WaitingSet(s.threads)| - (if s.threads[ttl - 1].Waiting? then 1 else 0)
  {
    var i := ttl - 1;
    assert WaitingSet(WithStage(s, ttl, x).threads) == WaitingSet(s.threads) - {i};
  }

  lemma OthersHanded(handed: seq<Uint16>, p: Uint16)
    requires p in handed
    ensures |Elems(handed) - {p}| + 1 <= |handed|
  {
    ElemsAtMostLength(handed);
    SubsetCard({p}, Elems(handed));
  }

  /** In a roomy sweep the slot at the end of a busy stretch has not been handed out before. */
  lemma HandedOnce(s: Prober, j: nat)
    requires s.slice.Valid() && Roomy(s) && CursorLedger(s) && WaitingSet(s.threads) != {}
    requires s.reach <= j && Walked(s.slice, s.reach, j) <= s.table.inflight.Keys
    ensures At(s.slice, j) !in s.handed
  {
    hide At, Walked, Roomy;
    var sl, p := s.slice, At(s.slice, j);
    if p in s.handed {
      assert p in Elems(s.handed);
      WalkedMeaning(sl, s.start, s.reach);
      var i: nat :| s.start <= i < s.reach && At(sl, i) == p;
      WalkedSplit(sl, s.start, s.reach, j);
      var rest := Walked(sl, s.start, j) - s.held - {p};
      SubsetCard(rest, Elems(s.handed) - {p});
      OthersHanded(s.handed, p);
      RoomyRefutes(s, i, j);
    }
  }

  lemma RoomyRefutes(s: Prober, i: nat, j: nat)
    requires s.slice.Valid() && Roomy(s) && s.start <= i < j && At(s.slice, i) == At(s.slice, j)
    ensures |Walked(s.slice, s.start, j) - s.held - {At(s.slice, i)}| + 2 > |s.threads|
  {
    assert !Lap(s, i, j);
  }

  /** What one call of the allocator does to the sweep's ledger. */
  lemma AllocationAdvances(s: Prober)
    requires s.slice.Valid() && Roomy(s) && CursorLedger(s) && WaitingSet(s.threads) != {}
    ensures var busy := s.table.inflight.Keys;
            var f, reach := NextSrcPort(s.slice, s.cursor, busy, s.slice.range),
                            s.reach + Tries(s.slice, s.cursor, busy, s.slice.range);
            var now := Elems(s.handed) + (if f.port == None then {} else {f.port.value});
            && f.cursor == reach % TWO_TO_THE_32
            && Walked(s.slice, s.start, reach) <= now + s.held
            && now <= Walked(s.slice, s.start, reach)
            && (f.port.Some? ==> f.port.value !in s.handed && f.port.value !in s.table.inflight)
  {
    hide At, Walked, Roomy, NextSrcPort, Tries;
    var sl, busy := s.slice, s.table.inflight.Keys;
    NextSrcPortMeaning(sl, s.reach, busy, sl.range);
    var f, t := NextSrcPort(sl, s.cursor, busy, sl.range), Tries(sl, s.cursor, busy, sl.range);
    var j := if f.port == None then s.reach + t else s.reach + t - 1;
    BusyIsWalked(sl, busy, s.reach, j);
    WalkedSplit(sl, s.start, s.reach, j);
    if f.port.Some? {
      HandedOnce(s, j);
      WalkedLast(sl, s.start, j);
    }
  }

  lemma WalkedLast(sl: Slice, from: nat, j: nat)
    requires sl.Valid() && from <= j
    ensures Walked(sl, from, j + 1) == Walked(sl, from, j) + {At(sl, j)}
  {
  }

  lemma LedgerAfterAllocate(s: Prober, ttl: int)
    requires WellFormed(s) && Roomy(s) && CursorLedger(s) && StageOf(s, ttl).Waiting?
    ensures CursorLedger(Step(s, Allocate(ttl)))
  {
    hide At, Walked, Roomy, NextSrcPort, Tries;
    var i, u := ttl - 1, Step(s, Allocate(ttl));
    assert i in WaitingSet(s.threads);
    AllocationAdvances(s);
    assert WaitingSet(u.threads) == WaitingSet(s.threads) - {i};
    if u.handed != s.handed {
      ElemsAppend(s.handed, Last(u.handed));
    }
  }

  lemma AllocateKeeps(s: Prober, ttl: int)
    requires Safe(s) && StageOf(s, ttl).Waiting?
    ensures Safe(Step(s, Allocate(ttl)))
  {
    hide At, Walked, NextSrcPort, Tries, CursorLedger, Balanced;
    assert ttl - 1 in WaitingSet(s.threads);
    AllocationAdvances(s);
    LedgerAfterAllocate(s, ttl);
    var u := Step(s, Allocate(ttl));
    RoomyStays(s, u);
    forall j | 0 <= j < |u.threads|
      ensures Owns(u, j)
    {
      assert Owns(s, j);
    }
    if u.handed != s.handed {
      var p := Last(u.handed);
      forall j | 0 <= j < |u.threads| && HasPort(s.threads[j])
        ensures s.threads[j].port != p
      {
        assert Owns(s, j);
      }
    }
  }

  /** Room depends only on what was known when the sweep began. */
  lemma RoomyStays(s: Prober, u: Prober)
    requires s.slice.Valid() && Roomy(s)
    requires u.slice == s.slice && u.start == s.start && u.held == s.held && |u.threads| == |s.threads|
    ensures Roomy(u)
  {
    hide At, Walked;
    forall i: nat, j: nat
      ensures !Lap(u, i, j)
    {
      assert !Lap(s, i, j);
    }
  }

  lemma EnlistKeeps(s: Prober, ttl: int, now: int)
    requires Safe(s) && StageOf(s, ttl).Allocated?
    ensures Safe(Step(s, Enlist(ttl, now)))
  {
    hide At, Walked, Balanced, Roomy, Distinct;
    var i, p := ttl - 1, StageOf(s, ttl).port;
    assert Owns(s, i);
    RoomyStays(s, Step(s, Enlist(ttl, now)));
    StageChange(s, ttl, Registered(p, now));
    RegisterFreshKeeps(s.table, p, ttl, now);
    var u := Step(s, Enlist(ttl, now));
    forall j | 0 <= j < |u.threads|
      ensures Owns(u, j)
    {
      assert Owns(s, j);
    }
  }

  /** Any step that only takes entries out of the in-flight map. */
  lemma ShrinkKeeps(s: Prober, t: Table)
    requires Safe(s) && Balanced(t) && |t.hops| == |s.table.hops|
    requires t.inflight.Keys <= s.table.inflight.Keys
    requires forall k | k in t.inflight :: t.inflight[k] == s.table.inflight[k]
    ensures Safe(s.(table := t))
  {
    hide At, Walked, Balanced, Roomy, Distinct;
    var u := s.(table := t);
    RoomyStays(s, u);
    forall j | 0 <= j < |u.threads|
      ensures Owns(u, j)
    {
      assert Owns(s, j);
    }
  }

  lemma FinishKeeps(s: Prober, ttl: int)
    requires Safe(s) && StageOf(s, ttl).Registered?
    ensures Safe(WithStage(s, ttl, Done))
  {
    hide At, Walked, Balanced, Roomy, Distinct;
    var u := WithStage(s, ttl, Done);
    RoomyStays(s, u);
    StageChange(s, ttl, Done);
    forall j | 0 <= j < |u.threads|
      ensures Owns(u, j)
    {
      assert Owns(s, j);
    }
  }

  lemma SafeOwns(s: Prober, i: nat)
    requires Safe(s) && i < |s.threads|
    ensures Owns(s, i) && Balanced(s.table)
  {
  }

  lemma DialerKeeps(s: Prober, e: Event)
    requires Safe(s) && (e.Reach? || e.Fail?) && StageOf(s, e.ttl).Registered?
    ensures Safe(Step(s, e))
  {
    hide Safe, Balanced, Replied;
    var p := StageOf(s, e.ttl).port;
    var rtt := if e.Reach? then Millis(e.now - StageOf(s, e.ttl).sentAt) else 0.0;
    SafeOwns(s, e.ttl - 1);
    var t := if e.Reach? then RecordTerminus(s.table, p, e.ttl, e.src, rtt) else Rollback(s.table, p, e.ttl);
    if p in s.table.inflight {
      if e.Reach? {
        SettleOwnKeeps(s.table, p, e.src, rtt, true);
      } else {
        RollbackOwnKeeps(s.table, p);
      }
    }
    ShrinkKeeps(s, t);
    FinishKeeps(s.(table := t), e.ttl);
  }

  lemma StartKeeps(s: Prober)
    requires Safe(s) && Roomy(Step(s, StartSweep))
    ensures Safe(Step(s, StartSweep))
  {
    var u := Step(s, StartSweep);
    if AllDone(s.threads) {
      LedgerAtStart(s);
      hide At, Balanced, Roomy, CursorLedger;
      assert u.handed == [];
    }
  }

  lemma LedgerAtStart(s: Prober)
    requires Safe(s) && AllDone(s.threads)
    ensures CursorLedger(Step(s, StartSweep))
  {
    hide At, Balanced, Roomy;
    var u := Step(s, StartSweep);
    SubsetCard(WaitingSet(u.threads), Range(|u.threads|));
    assert Elems(u.handed) == {};
  }

  lemma StepKeeps(s: Prober, e: Event)
    requires Safe(s) && (e.StartSweep? ==> Roomy(Step(s, e)))
    ensures Safe(Step(s, e))
  {
    match e
    case StartSweep => StartKeeps(s);
    case Allocate(ttl) => if StageOf(s, ttl).Waiting? { AllocateKeeps(s, ttl); }
    case Enlist(ttl, now) => if StageOf(s, ttl).Allocated? { EnlistKeeps(s, ttl, now); }
    case Reach(ttl, src, now) => if StageOf(s, ttl).Registered? { DialerKeeps(s, e); }
    case Fail(ttl) => if StageOf(s, ttl).Registered? { DialerKeeps(s, e); }
    case GiveUp(ttl) => if StageOf(s, ttl).Registered? { FinishKeeps(s, ttl); }
    case TimeExceeded(port, src, now) =>
      if port in s.table.inflight {
        SettleOwnKeeps(s.table, port, src, Millis(now - s.table.inflight[port].sentAt), false);
        ShrinkKeeps(s, Reply(s.table, port, src, now, false));
      }
    case AgeOut(cutoff) =>
      PruneKeeps(s.table, cutoff);
      ShrinkKeeps(s, Prune(s.table, cutoff));
  }

  /** A prober as NewTCP builds it. */
  ghost predicate Initial(s: Prober) {
    && s.slice.Valid() && s.cursor == 0 && FreshTable(s.table)
    && s.threads == [] && s.handed == [] && s.start == 0 && s.reach == 0 && s.held == {}
  }

  lemma InitialWellFormed(s: Prober)
    requires Initial(s)
    ensures s.slice.Valid() && WellFormed(s)
  {
  }

  lemma InitialSafe(s: Prober)
    requires Initial(s)
    ensures Safe(s)
  {
    hide Balanced, FreshTable;
    FreshIsBalanced(s.table);
    assert s.table.inflight == map[] by {
      FreshIsEmpty(s.table);
    }
  }

  /** Room is needed once per sweep, when it starts. */
  ghost predicate RoomyAtStarts(s: Prober, events: seq<Event>)
    requires WellFormed(s)
  {
    events != [] ==>
      RoomyAtStarts(s, Front(events)) && (Last(events).StartSweep? ==> Roomy(Run(s, events)))
  }

  /** Over every interleaving of every number of sweeps. */
  lemma {:induction false} RunIsSafe(s: Prober, events: seq<Event>)
    requires Safe(s) && RoomyAtStarts(s, events)
    ensures Safe(Run(s, events))
  {
    assert WellFormed(s);
    hide Safe, Roomy, Step, WellFormed;
    if events != [] {
      RunIsSafe(s, Front(events));
      StepKeeps(Run(s, Front(events)), Last(events));
    }
  }

  /** No step of a safe run hands out a port twice, overwrites a live entry, or lets a dialer delete
      an entry that is not its own. */
  ghost predicate Clean(s: Prober, e: Event)
    requires WellFormed(s)
  {
    match e
    case Allocate(ttl) => Step(s, e).handed != s.handed ==> Last(Step(s, e).handed) !in s.handed
    case Enlist(ttl, _) => StageOf(s, ttl).Allocated? ==> StageOf(s, ttl).port !in s.table.inflight
    case Reach(ttl, _, _) => OwnEntry(s, ttl)
    case Fail(ttl) => OwnEntry(s, ttl)
    case _ => true
  }

  ghost predicate OwnEntry(s: Prober, ttl: int) {
    var x := StageOf(s, ttl);
    x.Registered? && x.port in s.table.inflight ==> s.table.inflight[x.port].ttl == ttl
  }

  lemma SafeIsRoomy(s: Prober)
    requires Safe(s)
    ensures WellFormed(s) && Roomy(s) && CursorLedger(s)
  {
  }

  lemma AllocateIsClean(s: Prober, ttl: int)
    requires WellFormed(s) && Roomy(s) && CursorLedger(s)
    ensures Clean(s, Allocate(ttl))
  {
    hide Roomy, CursorLedger, NextSrcPort, Tries;
    if StageOf(s, ttl).Waiting? {
      assert ttl - 1 in WaitingSet(s.threads);
      AllocationAdvances(s);
    }
  }

  lemma {:induction false} RunIsClean(s: Prober, events: seq<Event>, e: Event)
    requires Safe(s) && RoomyAtStarts(s, events)
    ensures Clean(Run(s, events), e)
  {
    assert WellFormed(s);
    hide Safe, Run, Roomy, CursorLedger, RoomyAtStarts, Step;
    RunIsSafe(s, events);
    var u := Run(s, events);
    SafeIsRoomy(u);
    if e.Allocate? {
      AllocateIsClean(u, e.ttl);
    } else if (e.Enlist? || e.Reach? || e.Fail?) && HasPort(StageOf(u, e.ttl)) {
      SafeOwns(u, e.ttl - 1);
    }
  }

  /** So every published loss percentage is a possible one, and every counter is backed by the map. */
  lemma {:induction false} RunAccounts(s: Prober, events: seq<Event>, ttl: int)
    requires Safe(s) && RoomyAtStarts(s, events) && 1 <= ttl <= |s.table.hops|
    ensures var t := Run(s, events).table;
            && |t.hops| == |s.table.hops|
            && t.hops[ttl - 1].inflight == |Live(t.inflight, ttl)|
            && t.hops[ttl - 1].recv + t.hops[ttl - 1].inflight <= t.hops[ttl - 1].sent
            && 0.0 <= LossPct(t.hops[ttl - 1]) <= 100.0
  {
    assert WellFormed(s);
    hide Safe, Run, Live, LossPct;
    RunIsSafe(s, events);
    HopCountConstant(s, events);
    SafeIsBalanced(Run(s, events));
    BalancedAt(Run(s, events).table, ttl);
  }

  lemma SafeIsBalanced(s: Prober)
    requires Safe(s)
    ensures Balanced(s.table)
  {
  }

  lemma BalancedAt(t: Table, ttl: int)
    requires Balanced(t) && 1 <= ttl <= |t.hops|
    ensures t.hops[ttl - 1].inflight == |Live(t.inflight, ttl)|
    ensures t.hops[ttl - 1].recv + t.hops[ttl - 1].inflight <= t.hops[ttl - 1].sent
    ensures 0.0 <= LossPct(t.hops[ttl - 1]) <= 100.0
  {
    assert HopBalanced(t.hops[ttl - 1], |Live(t.inflight, ttl - 1 + 1)|);
    BalancedLossInRange(t, ttl - 1);
  }

  lemma {:induction false} HopCountConstant(s: Prober, events: seq<Event>)
    requires WellFormed(s)
    ensures |Run(s, events).table.hops| == |s.table.hops|
  {
    if events != [] {
      HopCountConstant(s, Front(events));
    }
  }
}
