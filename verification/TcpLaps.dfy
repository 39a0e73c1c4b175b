/** Exactly when a sweep of the TCP prober may hand out a port twice: at every cursor, its 32-bit wrap
    included (internal/probe/probe_tcp_unix.go). */
module TcpLaps {
  import opened Prelude
  import opened HopStats
  import opened ProbeTable
  import opened PortAllocator
  import opened TcpSweep

  /** A sweep that has just begun. */
  ghost predicate JustStarted(s: Prober) {
    && WellFormed(s) && Balanced(s.table)
    && AllWaiting(s.threads, 0)
    && s.handed == [] && s.start == s.reach == s.cursor && s.held == s.table.inflight.Keys
    && s.held <= AllSlots(s.slice)
  }

  predicate AllWaiting(threads: seq<Stage>, from: nat) { forall i | from <= i < |threads| :: threads[i] == Waiting }

  ghost predicate SameSweep(events: seq<Event>) { forall e | e in events :: !e.StartSweep? }

  // ------------------------------------------------------------------
  // Enough room: every interleaving is safe
  // ------------------------------------------------------------------

  lemma JustStartedIsSafe(s: Prober)
    requires JustStarted(s) && Roomy(s)
    ensures Safe(s)
  {
    hide At, Walked, Balanced, Roomy, AllSlots, CursorLedger;
    LedgerAtStart(s);
  }

  lemma LedgerAtStart(s: Prober)
    requires s.slice.Valid() && s.handed == [] && s.start == s.reach == s.cursor && s.held == s.table.inflight.Keys
    ensures CursorLedger(s)
  {
    hide At, Walked;
    SubsetCard(WaitingSet(s.threads), Range(|s.threads|));
    WalkedNothing(s.slice, s.start);
  }

  lemma WalkedNothing(sl: Slice, from: nat)
    requires sl.Valid()
    ensures Walked(sl, from, from) == {}
  {
  }

  lemma {:induction false} SameSweepIsRoomy(s: Prober, events: seq<Event>)
    requires WellFormed(s) && SameSweep(events)
    ensures RoomyAtStarts(s, events)
  {
    if events != [] {
      assert forall e | e in Front(events) :: e in events;
      assert Last(events) in events;
      SameSweepIsRoomy(s, Front(events));
    }
  }

  lemma SafeIsDistinct(s: Prober)
    requires Safe(s)
    ensures Distinct(s.handed) && Balanced(s.table)
  {
  }

  /** A roomy sweep hands out distinct ports and keeps the books, at any cursor. */
  lemma {:induction false} RoomySweepIsSafe(s: Prober, events: seq<Event>)
    requires JustStarted(s) && Roomy(s) && SameSweep(events)
    ensures Distinct(Run(s, events).handed) && Balanced(Run(s, events).table)
  {
    assert WellFormed(s);
    hide JustStarted, Roomy, Safe, Run, Balanced, Distinct;
    JustStartedIsSafe(s);
    SameSweepIsRoomy(s, events);
    RunIsSafe(s, events);
    SafeIsDistinct(Run(s, events));
  }

  /** A walk that has been everywhere leaves no room for a lap in a sweep that fits. */
  lemma WholeWalkIsNoLap(s: Prober, i: nat, j: nat)
    requires s.slice.Valid() && Fits(s) && AllSlots(s.slice) <= Walked(s.slice, s.start, j)
    ensures !Lap(s, i, j)
  {
    hide At, Walked, AllSlots;
    var all, p := AllSlots(s.slice), At(s.slice, i);
    SetMinus(all, s.held, p);
    SubsetCard(all - s.held - {p}, Walked(s.slice, s.start, j) - s.held - {p});
  }

  lemma CardMinus<T>(a: set<T>, b: set<T>)
    ensures |a - b| >= |a| - |b|
    ensures b <= a ==> |a - b| == |a| - |b|
  {
    SubsetCard(a * b, b);
    SubsetCard(a * b, a);
    assert a - b == a - a * b;
    assert b <= a ==> a * b == b;
  }

  lemma CardWithout<T>(c: set<T>, x: T)
    ensures |c - {x}| == |c| - (if x in c then 1 else 0)
  {
    if x in c {
      SubsetCard({x}, c);
    } else {
      assert c - {x} == c;
    }
  }

  lemma SetMinus<T>(a: set<T>, b: set<T>, x: T)
    ensures |a - b - {x}| >= |a| - |b| - 1
    ensures x in a - b ==> |a - b - {x}| + 1 == |a - b|
    ensures b <= a ==> |a - b| == |a| - |b|
  {
    CardMinus(a, b);
    CardWithout(a - b, x);
  }

  lemma WalkGrows(sl: Slice, from: nat, a: nat, b: nat, until: nat)
    requires sl.Valid() && from <= a <= b <= until
    ensures Walked(sl, a, b) <= Walked(sl, from, until)
  {
    hide Walked;
    WalkedSplit(sl, from, a, until);
    WalkedSplit(sl, a, b, until);
  }

  /** Away from the seam one slot per live port and per TTL is room enough. */
  lemma FitsIsRoomy(s: Prober)
    requires s.slice.Valid() && Fits(s) && Seamless(s.slice, s.start + s.slice.range)
    ensures Roomy(s)
  {
    hide At, Walked, AllSlots, Fits;
    forall i: nat, j: nat
      ensures !Lap(s, i, j)
    {
      if Lap(s, i, j) {
        if j < s.start + s.slice.range {
          SlotsDiffer(s.slice, i, j);
        } else {
          FullTurnIsAll(s.slice, s.start);
          WalkGrows(s.slice, s.start, s.start, s.start + s.slice.range, j);
          WholeWalkIsNoLap(s, i, j);
        }
      }
    }
  }

  /** There, a walk that has met only live and handed-out slots has not gone round. */
  lemma WalkStaysInTurn(s: Prober, j: nat)
    requires s.slice.Valid() && Fits(s) && Seamless(s.slice, s.start + s.slice.range)
    requires |s.handed| < |s.threads| && Walked(s.slice, s.start, j) <= Elems(s.handed) + s.held
    ensures j < s.start + s.slice.range
  {
    hide At, Walked, AllSlots, Seamless;
    if j >= s.start + s.slice.range {
      FullTurnIsAll(s.slice, s.start);
      WalkGrows(s.slice, s.start, s.start, s.start + s.slice.range, j);
      SubsetCard(AllSlots(s.slice), Elems(s.handed) + s.held);
      ElemsAtMostLength(s.handed);
    }
  }

  lemma SafeLedger(s: Prober)
    requires Safe(s) && WaitingSet(s.threads) != {}
    ensures s.slice.Valid() && Roomy(s) && CursorLedger(s) && |s.handed| < |s.threads|
  {
  }

  /** So a waiting goroutine always finds a port, before the cursor has gone round, and neither a live one
      nor one already handed out. */
  lemma AllocationSucceeds(s: Prober)
    requires Safe(s) && Fits(s) && Seamless(s.slice, s.start + s.slice.range) && WaitingSet(s.threads) != {}
    ensures var busy := s.table.inflight.Keys;
            var f, t := NextSrcPort(s.slice, s.cursor, busy, s.slice.range),
                        Tries(s.slice, s.cursor, busy, s.slice.range);
            && f.port.Some? && f.port.value !in s.handed && f.port.value !in s.table.inflight
            && s.reach < s.reach + t <= s.start + s.slice.range
  {
    hide At, Walked, Safe, Fits, Seamless, Roomy, NextSrcPort, Tries;
    SafeLedger(s);
    var sl, busy := s.slice, s.table.inflight.Keys;
    AllocationAdvances(s);
    NextSrcPortMeaning(sl, s.reach, busy, sl.range);
    var f, t := NextSrcPort(sl, s.cursor, busy, sl.range), Tries(sl, s.cursor, busy, sl.range);
    var j := if f.port == None then s.reach + sl.range else s.reach + t - 1;
    BusyIsWalked(sl, busy, s.reach, j);
    WalkedSplit(sl, s.start, s.reach, j);
    WalkStaysInTurn(s, j);
  }

  // ------------------------------------------------------------------
  // Too little room: an interleaving that collides
  // ------------------------------------------------------------------

  lemma {:induction false} RunAppend(s: Prober, a: seq<Event>, b: seq<Event>)
    requires WellFormed(s)
    ensures Run(s, a + b) == Run(Run(s, a), b)
  {
    if b == [] {
      assert a + b == a;
    } else {
      assert Front(a + b) == a + Front(b);
      RunAppend(s, a, Front(b));
    }
  }

  lemma RunOne(s: Prober, e: Event)
    requires WellFormed(s)
    ensures Run(s, [e]) == Step(s, e)
  {
    assert Front([e]) == [] && Last([e]) == e;
  }

  lemma RunTwo(s: Prober, e: Event, f: Event)
    requires WellFormed(s)
    ensures Run(s, [e, f]) == Step(Step(s, e), f)
  {
    assert Front([e, f]) == [e] && Last([e, f]) == f;
    RunOne(s, e);
  }

  lemma SameSweepAppend(a: seq<Event>, b: seq<Event>)
    requires SameSweep(a) && SameSweep(b)
    ensures SameSweep(a + b)
  {
  }

  /** A sweep in which the goroutines below k have had their turn and the others are waiting. */
  ghost predicate Marching(u: Prober, k: nat) {
    && WellFormed(u) && Balanced(u.table) && k <= |u.threads| && AllWaiting(u.threads, k)
    && u.cursor == u.reach % TWO_TO_THE_32
  }

  /** The next allocation takes the first free slot on the way to goal. */
  lemma {:induction false} FirstFree(u: Prober, goal: nat) returns (q: nat)
    requires WellFormed(u) && u.cursor == u.reach % TWO_TO_THE_32 && u.reach <= goal < u.reach + u.slice.range
    requires At(u.slice, goal) !in u.table.inflight
    ensures u.reach <= q <= goal && At(u.slice, q) !in u.table.inflight
    ensures Walked(u.slice, u.reach, q) <= u.table.inflight.Keys
    ensures var busy := u.table.inflight.Keys;
            && NextSrcPort(u.slice, u.cursor, busy, u.slice.range).port == Some(At(u.slice, q))
            && NextSrcPort(u.slice, u.cursor, busy, u.slice.range).cursor == (q + 1) % TWO_TO_THE_32
            && u.reach + Tries(u.slice, u.cursor, busy, u.slice.range) == q + 1
  {
    hide At, Walked, NextSrcPort, Tries;
    var sl, busy := u.slice, u.table.inflight.Keys;
    NextSrcPortMeaning(sl, u.reach, busy, sl.range);
    var t := Tries(sl, u.cursor, busy, sl.range);
    assert t >= 1;
    q := u.reach + t - 1;
    BusyIsWalked(sl, busy, u.reach, q);
    assert BusyFromTo(sl, busy, u.reach, u.reach + t) ==> goal >= u.reach + t;
    assert BusyFromTo(sl, busy, u.reach, q) ==> goal >= q;
  }

  /** Hands the first free slot q on the way to the next waiting goroutine. */
  lemma Handing(u: Prober, k: nat, goal: nat) returns (q: nat, v: Prober)
    requires Marching(u, k) && k < |u.threads| && u.reach <= goal < u.reach + u.slice.range
    requires At(u.slice, goal) !in u.table.inflight
    ensures u.reach <= q <= goal && At(u.slice, q) !in u.table.inflight
    ensures Walked(u.slice, u.reach, q) <= u.table.inflight.Keys
    ensures v == Step(u, Allocate(k + 1)) && Marching(v, k + 1) && v.reach == q + 1
    ensures v.threads == u.threads[k := Allocated(At(u.slice, q))] && v.slice == u.slice
    ensures v.table == u.table && v.handed == u.handed + [At(u.slice, q)]
  {
    hide At, Walked, NextSrcPort, Tries, Balanced;
    q := FirstFree(u, goal);
    v := Step(u, Allocate(k + 1));
  }

  /** And registers it, so that it stays busy. */
  lemma Registering(v: Prober, k: nat) returns (w: Prober)
    requires Marching(v, k + 1) && v.threads[k].Allocated? && v.threads[k].port !in v.table.inflight
    ensures w == Step(v, Enlist(k + 1, 0)) && Marching(w, k + 1) && w.reach == v.reach && w.slice == v.slice
    ensures w.threads == v.threads[k := Registered(v.threads[k].port, 0)] && w.handed == v.handed
    ensures w.table.inflight.Keys == v.table.inflight.Keys + {v.threads[k].port}
    ensures w.table.terminus == v.table.terminus && |w.table.hops| == |v.table.hops|
  {
    hide Balanced;
    RegisterFreshKeeps(v.table, v.threads[k].port, k + 1, 0);
    w := Step(v, Enlist(k + 1, 0));
  }

  /** The slots still to be handed out on the way to goal. */
  ghost function Fresh(u: Prober, goal: nat): set<Uint16>
    requires u.slice.Valid()
  {
    Walked(u.slice, u.reach, goal) - u.table.inflight.Keys
  }

  lemma FreshShrinks(u: Prober, w: Prober, q: nat, goal: nat)
    requires u.slice.Valid() && w.slice == u.slice && u.reach <= q < goal && w.reach == q + 1
    requires Walked(u.slice, u.reach, q) <= u.table.inflight.Keys && At(u.slice, q) !in u.table.inflight
    requires w.table.inflight.Keys == u.table.inflight.Keys + {At(u.slice, q)}
    ensures |Fresh(u, goal)| == |Fresh(w, goal)| + 1
    ensures w.table.inflight.Keys + Walked(u.slice, q + 1, goal)
         == u.table.inflight.Keys + Walked(u.slice, u.reach, goal)
  {
    hide At, Walked;
    WalkedSplit(u.slice, u.reach, q, goal);
    WalkedSplit(u.slice, q, q + 1, goal);
    WalkedLast(u.slice, q, q);
    WalkedNothing(u.slice, q);
    assert Fresh(u, goal) == Fresh(w, goal) + {At(u.slice, q)};
  }

  /** Goroutines that allocate and register in turn make everything on the way to goal busy, and the next
      one is handed the slot under goal, which it does not register. */
  ghost predicate Arrived(u: Prober, k: nat, goal: nat, v: Prober, kk: nat)
    requires u.slice.Valid()
  {
    && v.slice == u.slice && |v.threads| == |u.threads| && k <= kk < |u.threads|
    && Marching(v, kk + 1) && v.reach == goal + 1
    && kk == k + |Fresh(u, goal)|
    && v.threads[..k] == u.threads[..k] && v.threads[kk] == Allocated(At(u.slice, goal))
    && v.table.inflight.Keys == u.table.inflight.Keys + Walked(u.slice, u.reach, goal)
    && |v.handed| > |u.handed| && v.handed[..|u.handed|] == u.handed && Last(v.handed) == At(u.slice, goal)
  }

  ghost predicate CanMarch(u: Prober, k: nat, goal: nat) {
    && Marching(u, k) && u.reach <= goal < u.reach + u.slice.range
    && At(u.slice, goal) !in u.table.inflight
    && At(u.slice, goal) !in Walked(u.slice, u.reach, goal)
    && k + |Fresh(u, goal)| < |u.threads|
  }

  lemma {:induction false} March(u: Prober, k: nat, goal: nat) returns (events: seq<Event>, kk: nat)
    requires CanMarch(u, k, goal)
    ensures SameSweep(events) && Arrived(u, k, goal, Run(u, events), kk)
    decreases goal - u.reach
  {
    hide At, Walked, Balanced, Step, Fresh;
    var q, v := Handing(u, k, goal);
    if q == goal {
      events, kk := [Allocate(k + 1)], k;
      RunOne(u, Allocate(k + 1));
      assert Fresh(u, goal) == {} by {
        NothingFresh(u, goal);
      }
      assert v.table.inflight.Keys == u.table.inflight.Keys + Walked(u.slice, u.reach, goal);
    } else {
      var w := Registering(v, k);
      FreshShrinks(u, w, q, goal);
      WalkGrows(u.slice, u.reach, q + 1, goal, goal);
      WalkedHas(u.slice, u.reach, goal, q);
      var rest;
      rest, kk := March(w, k + 1, goal);
      RunTwo(u, Allocate(k + 1), Enlist(k + 1, 0));
      RunAppend(u, [Allocate(k + 1), Enlist(k + 1, 0)], rest);
      events := [Allocate(k + 1), Enlist(k + 1, 0)] + rest;
      var z := Run(w, rest);
      assert z.threads[..k] == z.threads[..k + 1][..k];
      assert w.threads[..k + 1][..k] == u.threads[..k];
      assert z.handed[..|u.handed|] == z.handed[..|w.handed|][..|u.handed|];
    }
  }

  lemma NothingFresh(u: Prober, goal: nat)
    requires u.slice.Valid() && Walked(u.slice, u.reach, goal) <= u.table.inflight.Keys
    ensures Fresh(u, goal) == {}
  {
  }

  /** Two goroutines hold one port, which neither has registered yet. */
  ghost predicate Collides(u: Prober, a: nat, b: nat) {
    && WellFormed(u) && Balanced(u.table)
    && a < b < |u.threads| && u.threads[a].Allocated? && u.threads[b] == u.threads[a]
    && u.threads[a].port !in u.table.inflight
    && !Distinct(u.handed)
  }

  /** A lap whose two visits are each within one call's reach. */
  ghost predicate ReachableLap(s: Prober, i: nat, j: nat)
    requires s.slice.Valid()
  {
    && Lap(s, i, j)
    && i < s.start + s.slice.range && j <= i + s.slice.range
    && At(s.slice, i) !in Walked(s.slice, s.start, i)
    && At(s.slice, i) !in Walked(s.slice, i + 1, j)
  }

  /** Frees the slot of a lap, should it be live. */
  lemma Freeing(s: Prober, p: Uint16) returns (u: Prober)
    requires JustStarted(s)
    ensures u == Step(s, TimeExceeded(p, None, 0)) && Marching(u, 0)
    ensures u.table.inflight.Keys == s.held - {p}
    ensures u.slice == s.slice && u.threads == s.threads && u.reach == s.start
    ensures u.handed == []
  {
    hide Balanced;
    u := Step(s, TimeExceeded(p, None, 0));
    if p in s.table.inflight {
      SettleOwnKeeps(s.table, p, None, Millis(0 - s.table.inflight[p].sentAt), false);
    }
  }

  /** The two legs of the lap hand out no more than the lap allows. */
  lemma LapLegs(s: Prober, u: Prober, w: Prober, i: nat, j: nat)
    requires s.slice.Valid() && ReachableLap(s, i, j) && u.slice == w.slice == s.slice
    requires u.reach == s.start && w.reach == i + 1
    requires u.table.inflight.Keys == s.held - {At(s.slice, i)}
    requires w.table.inflight.Keys == u.table.inflight.Keys + Walked(s.slice, s.start, i)
    ensures |Fresh(u, i)| + |Fresh(w, j)| + 2 <= |s.threads|
  {
    hide At, Walked;
    WalkGrows(s.slice, s.start, s.start, i, j);
    WalkGrows(s.slice, s.start, i + 1, j, j);
    TwoLegs(Walked(s.slice, s.start, i), Walked(s.slice, i + 1, j), Walked(s.slice, s.start, j), s.held,
            At(s.slice, i), u.table.inflight.Keys);
  }

  lemma TwoLegs<T>(leg: set<T>, next: set<T>, whole: set<T>, held: set<T>, p: T, busy: set<T>)
    requires leg <= whole && next <= whole && p !in leg && p !in next && busy == held - {p}
    ensures |leg - busy| + |next - (busy + leg)| <= |whole - held - {p}|
  {
    var f, g := leg - busy, next - (busy + leg);
    SubsetCard(f + g, whole - held - {p});
  }

  lemma FreshBelow(u: Prober, i: nat, s: Prober, j: nat)
    requires s.slice.Valid() && ReachableLap(s, i, j) && u.slice == s.slice && u.reach == s.start
    requires u.table.inflight.Keys == s.held - {At(s.slice, i)}
    ensures |Fresh(u, i)| + 2 <= |s.threads|
  {
    hide At, Walked;
    WalkGrows(s.slice, s.start, s.start, i, j);
    SubsetCard(Fresh(u, i), Walked(s.slice, s.start, j) - s.held - {At(s.slice, i)});
  }

  lemma CanMarchFirst(s: Prober, u: Prober, i: nat, j: nat)
    requires s.slice.Valid() && ReachableLap(s, i, j) && Marching(u, 0)
    requires u.slice == s.slice && u.reach == s.start && u.threads == s.threads
    requires u.table.inflight.Keys == s.held - {At(s.slice, i)}
    ensures CanMarch(u, 0, i)
  {
    hide At, Walked, Balanced, Fresh;
    FreshBelow(u, i, s, j);
  }

  lemma CanMarchOn(s: Prober, u: Prober, w: Prober, a: nat, i: nat, j: nat)
    requires s.slice.Valid() && ReachableLap(s, i, j) && u.slice == s.slice
    requires u.reach == s.start && u.threads == s.threads
    requires u.table.inflight.Keys == s.held - {At(s.slice, i)}
    requires Arrived(u, 0, i, w, a)
    ensures CanMarch(w, a + 1, j)
  {
    hide At, Walked, Balanced, Fresh, Marching, Lap;
    LapMeans(s, i, j);
    LapLegs(s, u, w, i, j);
  }

  lemma TwoArrivals(u: Prober, w: Prober, z: Prober, a: nat, b: nat, i: nat, j: nat)
    requires u.slice.Valid() && Arrived(u, 0, i, w, a) && Arrived(w, a + 1, j, z, b)
    requires At(u.slice, j) == At(u.slice, i) && At(u.slice, i) !in u.table.inflight
    requires At(u.slice, i) !in Walked(u.slice, u.reach, i) && At(u.slice, i) !in Walked(u.slice, i + 1, j)
    ensures Collides(z, a, b)
  {
    hide At, Walked, Balanced, Fresh;
    assert z.threads[a] == z.threads[..a + 1][a] == w.threads[..a + 1][a];
    assert z.handed[|w.handed| - 1] == z.handed[..|w.handed|][|w.handed| - 1];
    RepeatsAt(z.handed, |w.handed| - 1);
  }

  lemma {:induction false} LapCollides(s: Prober, i: nat, j: nat) returns (events: seq<Event>, a: nat, b: nat)
    requires JustStarted(s) && ReachableLap(s, i, j)
    ensures SameSweep(events) && Collides(Run(s, events), a, b)
  {
    assert WellFormed(s);
    hide At, Walked, Step, Lap, JustStarted, Arrived, Marching, CanMarch, Collides;
    var p, e := At(s.slice, i), TimeExceeded(At(s.slice, i), None, 0);
    LapMeans(s, i, j);
    var u := Freeing(s, p);
    CanMarchFirst(s, u, i, j);
    var first, second;
    first, a := March(u, 0, i);
    var w := Run(u, first);
    CanMarchOn(s, u, w, a, i, j);
    second, b := March(w, a + 1, j);
    TwoArrivals(u, w, Run(w, second), a, b, i, j);
    RunOne(s, e);
    RunAppend(s, [e], first);
    RunAppend(s, [e] + first, second);
    events := [e] + first + second;
  }

  lemma LapMeans(s: Prober, i: nat, j: nat)
    requires s.slice.Valid() && Lap(s, i, j)
    ensures s.start <= i < j && At(s.slice, j) == At(s.slice, i)
  {
  }

  lemma RepeatsAt<T(!new)>(xs: seq<T>, n: nat)
    requires n + 1 < |xs| && xs[n] == Last(xs)
    ensures !Distinct(xs)
  {
  }

  /** Registering one port twice leaves a hop counter that no map entry backs. */
  lemma CollisionTearsBooks(u: Prober, a: nat, b: nat) returns (events: seq<Event>)
    requires Collides(u, a, b)
    ensures SameSweep(events) && !Balanced(Run(u, events).table)
  {
    hide Balanced;
    var p := u.threads[a].port;
    var e, f := Enlist(a + 1, 0), Enlist(b + 1, 0);
    events := [e, f];
    RunTwo(u, e, f);
    RegisterKeepsIff(u.table, p, a + 1, 0);
    RegisterKeepsIff(Step(u, e).table, p, b + 1, 0);
  }

  /** So every reachable lap is an interleaving that hands out a port twice, and another that leaves the
      books torn. */
  lemma {:induction false} LapIsUnsafe(s: Prober, i: nat, j: nat) returns (twice: seq<Event>, torn: seq<Event>)
    requires JustStarted(s) && ReachableLap(s, i, j)
    ensures SameSweep(twice) && !Distinct(Run(s, twice).handed)
    ensures SameSweep(torn) && !Balanced(Run(s, torn).table)
  {
    assert WellFormed(s);
    hide Balanced, Run, SameSweep, Distinct, JustStarted, ReachableLap;
    var a, b;
    twice, a, b := LapCollides(s, i, j);
    var rest := CollisionTearsBooks(Run(s, twice), a, b);
    RunAppend(s, twice, rest);
    SameSweepAppend(twice, rest);
    torn := twice + rest;
  }

  // ------------------------------------------------------------------
  // Where laps come from
  // ------------------------------------------------------------------

  lemma NotWalked(sl: Slice, from: nat, until: nat, i: nat)
    requires sl.Valid() && forall k | from <= k < until :: At(sl, k) != At(sl, i)
    ensures At(sl, i) !in Walked(sl, from, until)
  {
    hide At, Walked;
    WalkedMeaning(sl, from, until);
  }

  /** Without a seam, one turn leads from a slot back to it, and to nothing twice. */
  lemma TurnIsReachable(s: Prober, i: nat)
    requires s.slice.Valid() && s.start <= i < s.start + s.slice.range
    requires Seamless(s.slice, s.start + 2 * s.slice.range)
    requires |AllSlots(s.slice) - s.held - {At(s.slice, i)}| + 2 <= |s.threads|
    ensures ReachableLap(s, i, i + s.slice.range)
  {
    hide At, Walked, AllSlots;
    var sl, j := s.slice, i + s.slice.range;
    SameSlotAgain(sl, i);
    forall k | s.start <= k < i
      ensures At(sl, k) != At(sl, i)
    {
      SlotsDiffer(sl, k, i);
    }
    forall k | i + 1 <= k < j
      ensures At(sl, k) != At(sl, i)
    {
      SlotsDiffer(sl, i, k);
    }
    NotWalked(sl, s.start, i, i);
    NotWalked(sl, i + 1, j, i);
    WalkedInSlice(sl, s.start, j);
    SubsetCard(Walked(sl, s.start, j) - s.held - {At(sl, i)}, AllSlots(sl) - s.held - {At(sl, i)});
  }

  /** Away from the seam a sweep that does not fit has a lap. */
  lemma OverfullHasLap(s: Prober) returns (i: nat)
    requires JustStarted(s) && !Fits(s) && |s.threads| >= 2
    requires Seamless(s.slice, s.start + 2 * s.slice.range)
    ensures ReachableLap(s, i, i + s.slice.range)
  {
    HeldInSlice(s);
    assert s.slice.Valid();
    hide At, Walked, AllSlots, JustStarted;
    i := s.start;
    if p :| p in AllSlots(s.slice) - s.held {
      i := SlotReached(s.slice, s.start, p);
    }
    LittleLeft(s, At(s.slice, i));
    TurnIsReachable(s, i);
  }

  lemma HeldInSlice(s: Prober)
    requires JustStarted(s)
    ensures s.held <= AllSlots(s.slice)
  {
  }

  /** In a sweep that does not fit, a free slot if there is one leaves too few others free. */
  lemma LittleLeft(s: Prober, p: Uint16)
    requires s.slice.Valid() && s.held <= AllSlots(s.slice) && !Fits(s) && |s.threads| >= 2
    requires p in AllSlots(s.slice) - s.held || AllSlots(s.slice) - s.held == {}
    ensures |AllSlots(s.slice) - s.held - {p}| + 2 <= |s.threads|
  {
    hide AllSlots;
    SetMinus(AllSlots(s.slice), s.held, p);
    if AllSlots(s.slice) - s.held == {} {
      assert AllSlots(s.slice) - s.held - {p} == {};
    }
  }

  /** A lap across the seam: slot x of the turn the wrap cut short, met again in the turn after it. */
  ghost predicate SeamLap(s: Prober, x: nat)
    requires s.slice.Valid()
  {
    var m := TWO_TO_THE_32 % s.slice.range;
    && x < m && s.start + m <= TWO_TO_THE_32 + x
    && |Walked(s.slice, s.start, TWO_TO_THE_32 + x) - s.held - {s.slice.base + x}| + 2 <= |s.threads|
  }

  lemma SeamLapIsLap(s: Prober, x: nat)
    requires s.slice.Valid() && SeamLap(s, x)
    ensures var m := TWO_TO_THE_32 % s.slice.range;
            Lap(s, TWO_TO_THE_32 - m + x, TWO_TO_THE_32 + x)
  {
    hide At, Walked;
    var m := TWO_TO_THE_32 % s.slice.range;
    BeforeSeam(s.slice, m - x);
    AfterSeam(s.slice, x);
  }

  lemma SeamLapIsReachable(s: Prober, x: nat)
    requires s.slice.Valid() && s.start < TWO_TO_THE_32 && Fits(s) && SeamLap(s, x)
    ensures var m := TWO_TO_THE_32 % s.slice.range;
            ReachableLap(s, TWO_TO_THE_32 - m + x, TWO_TO_THE_32 + x)
  {
    hide At, Walked, AllSlots, Lap, SeamLap, Fits;
    var sl, n, m := s.slice, TWO_TO_THE_32, TWO_TO_THE_32 % s.slice.range;
    assert x < m && s.start + m <= n + x by {
      SeamLapPlace(s, x);
    }
    SeamLapIsLap(s, x);
    var i, j := n - m + x, n + x;
    if i >= s.start + sl.range {
      FullTurnIsAll(sl, s.start);
      WalkGrows(sl, s.start, s.start, s.start + sl.range, j);
      WholeWalkIsNoLap(s, i, j);
      assert false;
    }
    forall k | s.start <= k < i
      ensures At(sl, k) != At(sl, i)
    {
      SlotsDiffer(sl, k, i);
    }
    forall k | i + 1 <= k < j
      ensures At(sl, k) != At(sl, i)
    {
      if k < n {
        SlotsDiffer(sl, i, k);
      } else {
        BeforeSeam(sl, m - x);
        AfterSeam(sl, k - n);
      }
    }
    NotWalked(sl, s.start, i, i);
    NotWalked(sl, i + 1, j, i);
  }

  lemma SeamLapPlace(s: Prober, x: nat)
    requires s.slice.Valid() && SeamLap(s, x)
    ensures x < TWO_TO_THE_32 % s.slice.range && s.start + TWO_TO_THE_32 % s.slice.range <= TWO_TO_THE_32 + x
    ensures |s.threads| >= 2
  {
  }

  /** Coming back to a slot of the complete part of the last turn takes a walk through every slot. */
  lemma LongWayRoundIsAll(sl: Slice, start: nat, a: nat)
    requires sl.Valid() && TWO_TO_THE_32 % sl.range < a < sl.range && start <= TWO_TO_THE_32 - a
    ensures AllSlots(sl) <= Walked(sl, start, TWO_TO_THE_32 + (sl.range + TWO_TO_THE_32 % sl.range - a))
  {
    hide At, Walked;
    var n, r, m := TWO_TO_THE_32, sl.range, TWO_TO_THE_32 % sl.range;
    var b := r + m - a;
    forall p | p in AllSlots(sl)
      ensures p in Walked(sl, start, n + b)
    {
      var y := p - sl.base;
      if y < b {
        AfterSeam(sl, y);
        WalkedHas(sl, start, n + b, n + y);
      } else {
        BeforeSeam(sl, r + m - y);
        WalkedHas(sl, start, n + b, n - (r + m - y));
      }
    }
  }

  lemma TurnAfterSeamIsAll(sl: Slice)
    requires sl.Valid()
    ensures AllSlots(sl) <= Walked(sl, TWO_TO_THE_32, TWO_TO_THE_32 + sl.range)
  {
    hide At, Walked;
    forall p | p in AllSlots(sl)
      ensures p in Walked(sl, TWO_TO_THE_32, TWO_TO_THE_32 + sl.range)
    {
      AfterSeam(sl, p - sl.base);
      WalkedHas(sl, TWO_TO_THE_32, TWO_TO_THE_32 + sl.range, TWO_TO_THE_32 + (p - sl.base));
    }
  }

  /** A lap of a sweep that fits begins less than one turn before the seam and ends less than one after. */
  lemma LapStraddlesSeam(s: Prober, i: nat, j: nat)
    requires s.slice.Valid() && s.start < TWO_TO_THE_32 && Fits(s) && Lap(s, i, j)
    ensures TWO_TO_THE_32 - s.slice.range < s.start <= i < TWO_TO_THE_32 <= j < TWO_TO_THE_32 + s.slice.range
  {
    hide At, Walked, AllSlots, Fits, Lap;
    var sl, n := s.slice, TWO_TO_THE_32;
    assert s.start <= i < j && At(sl, i) == At(sl, j) by {
      LapMeans(s, i, j);
    }
    if j >= n + sl.range {
      TurnAfterSeamIsAll(sl);
      WalkGrows(sl, s.start, n, n + sl.range, j);
      WholeWalkIsNoLap(s, i, j);
    } else if s.start + sl.range <= n && j >= s.start + sl.range {
      FullTurnIsAll(sl, s.start);
      WalkGrows(sl, s.start, s.start, s.start + sl.range, j);
      WholeWalkIsNoLap(s, i, j);
    } else if j < n {
      SlotsDiffer(sl, i, j);
    } else if i >= n {
      AfterSeam(sl, i - n);
      AfterSeam(sl, j - n);
    }
  }

  /** So every lap of a sweep that fits is a lap across the seam. */
  lemma LapIsSeamLap(s: Prober, i: nat, j: nat) returns (x: nat)
    requires s.slice.Valid() && s.start < TWO_TO_THE_32 && Fits(s) && Lap(s, i, j)
    ensures SeamLap(s, x)
  {
    hide At, Walked, AllSlots, Fits;
    var sl, n, m := s.slice, TWO_TO_THE_32, TWO_TO_THE_32 % s.slice.range;
    LapStraddlesSeam(s, i, j);
    var a := n - i;
    BeforeSeam(sl, a);
    AfterSeam(sl, j - n);
    if a > m {
      LongWayRoundIsAll(sl, s.start, a);
      WholeWalkIsNoLap(s, i, j);
    }
    x := m - a;
  }

  // ------------------------------------------------------------------
  // The exact conditions
  // ------------------------------------------------------------------

  /** What a caller could check before the sweep: a single goroutine, or one slot per live port and per
      TTL and no lap across the seam. */
  ghost predicate HasRoom(s: Prober)
    requires s.slice.Valid()
  {
    |s.threads| < 2 || (Fits(s) && ClearOfSeam(s))
  }

  ghost predicate ClearOfSeam(s: Prober)
    requires s.slice.Valid()
  {
    forall x: nat :: !SeamLap(s, x)
  }

  lemma ClearAndFittingIsRoomy(s: Prober)
    requires s.slice.Valid() && s.start < TWO_TO_THE_32 && Fits(s) && ClearOfSeam(s)
    ensures Roomy(s)
  {
    hide At, Walked, AllSlots, SeamLap, Fits;
    forall i: nat, j: nat
      ensures !Lap(s, i, j)
    {
      if Lap(s, i, j) {
        var x := LapIsSeamLap(s, i, j);
      }
    }
  }

  /** No sweep that fits near the wrap of the cursor, and no sweep at all away from it, has a lap exactly
      when it has room; and every lap there can be reached. */
  lemma {:induction false} RoomIff(s: Prober)
    requires JustStarted(s)
    requires Fits(s) || Seamless(s.slice, s.start + 2 * s.slice.range)
    ensures Roomy(s) <==> HasRoom(s)
    ensures !HasRoom(s) ==> exists i: nat, j: nat :: ReachableLap(s, i, j)
  {
    hide At, Walked, AllSlots, Balanced, SeamLap, Lap, ReachableLap;
    if !HasRoom(s) {
      if !Fits(s) {
        var i := OverfullHasLap(s);
        ReachableIsLap(s, i, i + s.slice.range);
      } else {
        var x: nat :| SeamLap(s, x);
        SeamLapIsReachable(s, x);
        var m := TWO_TO_THE_32 % s.slice.range;
        SeamLapPlace(s, x);
        ReachableIsLap(s, TWO_TO_THE_32 - m + x, TWO_TO_THE_32 + x);
      }
    } else if i: nat, j: nat :| Lap(s, i, j) {
      if |s.threads| < 2 {
        LapNeedsTwo(s, i, j);
      } else {
        var x := LapIsSeamLap(s, i, j);
      }
    }
  }

  lemma ReachableIsLap(s: Prober, i: nat, j: nat)
    requires s.slice.Valid() && ReachableLap(s, i, j)
    ensures Lap(s, i, j)
  {
  }

  lemma LapNeedsTwo(s: Prober, i: nat, j: nat)
    requires s.slice.Valid() && Lap(s, i, j)
    ensures |s.threads| >= 2
  {
  }

  /** No interleaving of a sweep hands out a port twice exactly when the sweep has room: for every cursor
      when the sweep fits, and for every sweep away from the wrap of the cursor. */
  lemma {:induction false} SweepSafeIff(s: Prober)
    requires JustStarted(s)
    requires Fits(s) || Seamless(s.slice, s.start + 2 * s.slice.range)
    ensures (forall events | SameSweep(events) :: Distinct(Run(s, events).handed)) <==> HasRoom(s)
  {
    assert s.slice.Valid() && WellFormed(s);
    hide JustStarted, HasRoom, Run, SameSweep, Distinct, Roomy, ReachableLap, Fits, Seamless;
    RoomIff(s);
    if HasRoom(s) {
      forall events | SameSweep(events)
        ensures Distinct(Run(s, events).handed)
      {
        RoomySweepIsSafe(s, events);
      }
    } else {
      var i: nat, j: nat :| ReachableLap(s, i, j);
      var twice, torn := LapIsUnsafe(s, i, j);
    }
  }

  /** And the same condition decides whether every interleaving keeps all counters backed by the map. */
  lemma {:induction false} BooksSafeIff(s: Prober)
    requires JustStarted(s)
    requires Fits(s) || Seamless(s.slice, s.start + 2 * s.slice.range)
    ensures (forall events | SameSweep(events) :: Balanced(Run(s, events).table)) <==> HasRoom(s)
  {
    assert s.slice.Valid() && WellFormed(s);
    hide JustStarted, HasRoom, Run, SameSweep, Balanced, Roomy, ReachableLap, Fits, Seamless;
    RoomIff(s);
    if HasRoom(s) {
      forall events | SameSweep(events)
        ensures Balanced(Run(s, events).table)
      {
        RoomySweepIsSafe(s, events);
      }
    } else {
      var i: nat, j: nat :| ReachableLap(s, i, j);
      var twice, torn := LapIsUnsafe(s, i, j);
    }
  }

  // ------------------------------------------------------------------
  // Which ranges are safe at every cursor
  // ------------------------------------------------------------------

  /** One probe of hop 1 in flight on each of the given ports, and a second hop yet to be probed. */
  function FirstHopLive(live: set<Uint16>): Table {
    Table(map p | p in live :: Entry(1, 0), [Sent(FRESH_HOP, |live|), FRESH_HOP], 0)
  }

  lemma FirstHopLiveBalanced(live: set<Uint16>)
    ensures Balanced(FirstHopLive(live)) && FirstHopLive(live).inflight.Keys == live
  {
    var t := FirstHopLive(live);
    assert Live(t.inflight, 1) == live;
    assert Live(t.inflight, 2) == {};
  }

  /** The cursor on its last value, two TTLs to probe, and all but the last slot of the cut turn live. */
  function SeamState(sl: Slice): Prober
    requires sl.Valid() && TWO_TO_THE_32 % sl.range > 0
  {
    var live, last := FirstSlots(sl, TWO_TO_THE_32 % sl.range - 1), TWO_TO_THE_32 - 1;
    Prober(sl, last, FirstHopLive(live), [Waiting, Waiting], [], last, last, live)
  }

  lemma SeamStateStarts(sl: Slice)
    requires sl.Valid() && TWO_TO_THE_32 % sl.range > 0
    ensures JustStarted(SeamState(sl)) && Fits(SeamState(sl))
  {
    hide Balanced, FirstSlots;
    FirstHopLiveBalanced(FirstSlots(sl, TWO_TO_THE_32 % sl.range - 1));
  }

  lemma SeamWalk(sl: Slice)
    requires sl.Valid() && TWO_TO_THE_32 % sl.range > 0
    ensures var n, m := TWO_TO_THE_32, TWO_TO_THE_32 % sl.range;
            Walked(sl, n - 1, n + m - 1) <= FirstSlots(sl, m - 1) + {sl.base + m - 1}
  {
    hide At, Walked, FirstSlots;
    var n, m := TWO_TO_THE_32, TWO_TO_THE_32 % sl.range;
    BeforeSeam(sl, 1);
    forall k: nat | n - 1 <= k < n + m - 1
      ensures At(sl, k) in FirstSlots(sl, m - 1) + {sl.base + m - 1}
    {
      if k >= n {
        AfterSeam(sl, k - n);
      }
    }
    BusyIsWalked(sl, FirstSlots(sl, m - 1) + {sl.base + m - 1}, n - 1, n + m - 1);
  }

  lemma SeamStateLaps(sl: Slice)
    requires sl.Valid() && TWO_TO_THE_32 % sl.range > 0
    ensures SeamLap(SeamState(sl), TWO_TO_THE_32 % sl.range - 1)
  {
    hide Walked, FirstSlots, FirstHopLive;
    var n, m := TWO_TO_THE_32, TWO_TO_THE_32 % sl.range;
    SeamWalk(sl);
    assert Walked(sl, n - 1, n + m - 1) - FirstSlots(sl, m - 1) - {sl.base + m - 1} == {};
  }

  lemma DividingRangeIsSafe(s: Prober, events: seq<Event>)
    requires JustStarted(s) && Fits(s) && SameSweep(events) && TWO_TO_THE_32 % s.slice.range == 0
    ensures Distinct(Run(s, events).handed)
  {
    hide Fits, Roomy, SameSweep, Run, Distinct;
    FitsIsRoomy(s);
    RoomySweepIsSafe(s, events);
  }

  lemma OtherRangesAreNot(sl: Slice) returns (s: Prober, events: seq<Event>)
    requires sl.Valid() && TWO_TO_THE_32 % sl.range > 0
    ensures s.slice == sl && JustStarted(s) && Fits(s) && SameSweep(events) && !Distinct(Run(s, events).handed)
  {
    s := SeamState(sl);
    SeamStateStarts(sl);
    SeamStateLaps(sl);
    hide Run, SameSweep, Distinct, Fits, HasRoom, SeamLap, SeamState, Seamless;
    SeamLapMeansNoRoom(s, TWO_TO_THE_32 % sl.range - 1);
    SweepSafeIff(s);
    events :| SameSweep(events) && !Distinct(Run(s, events).handed);
  }

  /** A slice is safe for every sweep that fits, at every cursor, under every interleaving, exactly when
      its size divides 2^32. */
  lemma {:induction false} EveryCursorSafeIff(sl: Slice)
    requires sl.Valid() && sl.range >= 2
    ensures (forall s: Prober, events: seq<Event> | s.slice == sl && JustStarted(s) && Fits(s) && SameSweep(events) ::
               Distinct(Run(s, events).handed))
            <==> TWO_TO_THE_32 % sl.range == 0
  {
    hide Run, SameSweep, Distinct, Fits, Balanced, AllSlots, AllWaiting;
    if TWO_TO_THE_32 % sl.range == 0 {
      forall s: Prober, events: seq<Event> | s.slice == sl && JustStarted(s) && Fits(s) && SameSweep(events)
        ensures Distinct(Run(s, events).handed)
      {
        DividingRangeIsSafe(s, events);
      }
    } else {
      var s, events := OtherRangesAreNot(sl);
    }
  }

  lemma SeamLapMeansNoRoom(s: Prober, x: nat)
    requires s.slice.Valid() && SeamLap(s, x)
    ensures !HasRoom(s)
  {
    SeamLapPlace(s, x);
  }

  /** Three hops probed every 500 ms reserve fifteen ports. With the cursor about to wrap, a fresh prober
      that has nothing in flight hands the same port to its first two goroutines. */
  const WRAP_START := Prober(Slice(33434, 15), 0xFFFF_FFFF, Table(map[], [FRESH_HOP, FRESH_HOP, FRESH_HOP], 0),
                             [Waiting, Waiting, Waiting], [], 0xFFFF_FFFF, 0xFFFF_FFFF, {})

  lemma WrapStartFits()
    ensures JustStarted(WRAP_START) && Fits(WRAP_START)
  {
    hide Balanced;
    FreshIsBalanced(WRAP_START.table);
  }

  lemma CursorWrapCollides()
    ensures JustStarted(WRAP_START) && Fits(WRAP_START)
    ensures Run(WRAP_START, [Allocate(1), Allocate(2)]).handed == [33434, 33434]
  {
    hide JustStarted, Fits;
    WrapStartFits();
    var u := Step(WRAP_START, Allocate(1));
    assert u.handed == [33434] && u.cursor == 0;
    assert Step(u, Allocate(2)).handed == [33434, 33434];
    RunTwo(WRAP_START, Allocate(1), Allocate(2));
  }
}
