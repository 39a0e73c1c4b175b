/** Process-wide reservation of source-port ranges by compare-and-swap
    (internal/probe/probe_tcp_unix.go). */
module PortRange {
  import opened Prelude
  import opened ProbeTable
  import Modular

  const PORT_BASE: nat := 33434
  const RANGE_FACTOR: nat := 4
  const PORT_CAP: nat := 65535 - PORT_BASE - 1024

  /** Sweeps that can have probes inside the loss window, rounded up, plus one. */
  function SweepsPerWindow(interval: int): int
    requires interval > 0
  {
    var lt := LossTimeout(interval);
    var sweeps := lt / interval + (if lt % interval > 0 then 2 else 1);
    if sweeps < RANGE_FACTOR then RANGE_FACTOR else sweeps
  }

  function ComputeRangeSize(interval: int, maxHops: int): Uint32
    requires interval > 0 && 1 <= maxHops <= 255
  {
    var r := (maxHops * SweepsPerWindow(interval)) % TWO_TO_THE_32;
    if r == 0 then RANGE_FACTOR else r
  }

  /** The least number of sweeps, but not below the floor, whose starts after the first span the window. */
  lemma SweepsPerWindowMeaning(interval: int)
    requires interval > 0
    ensures var n := SweepsPerWindow(interval);
            && n >= RANGE_FACTOR && (n - 1) * interval >= LossTimeout(interval)
            && (n > RANGE_FACTOR ==> (n - 2) * interval < LossTimeout(interval))
  {
    var lt, n := LossTimeout(interval), SweepsPerWindow(interval);
    Modular.Quotient(lt, interval);
    hide LossTimeout;
    var q := lt / interval;
    Modular.SplitSum(interval, q, 1);
    if n > q + 1 {
      Modular.MulMonotone(q + 1, n - 1, interval);
    }
  }

  lemma SweepsBounded(interval: int)
    requires interval >= 100_000_000
    ensures RANGE_FACTOR <= SweepsPerWindow(interval) <= 21
  {
    var lt := LossTimeout(interval);
    Modular.Quotient(lt, interval);
    if lt == 2 * interval {
      Modular.RemainderUnique(lt, interval, 2, 0);
    } else {
      Modular.SmallQuotient(lt, interval, 20);
      if lt / interval == 20 {
        assert interval * 20 + lt % interval == lt;
      }
    }
  }

  lemma RangeSizeBounds(interval: int, maxHops: int)
    requires interval >= 100_000_000 && 1 <= maxHops <= 255
    ensures var r := ComputeRangeSize(interval, maxHops);
            && r == maxHops * SweepsPerWindow(interval)
            && RANGE_FACTOR * maxHops <= r <= 21 * maxHops <= PORT_CAP
  {
    hide SweepsPerWindow;
    var n := SweepsPerWindow(interval);
    SweepsBounded(interval);
    Modular.MulMonotone(RANGE_FACTOR, n, maxHops);
    Modular.MulMonotone(n, 21, maxHops);
  }

  /** When the probes still inside the loss window come from sweeps whose starts all fit strictly inside
      it, the range holds them and one more probe per hop: TcpSweep.Fits. */
  lemma RangeCoversWindow(interval: int, maxHops: int, sweeps: nat, live: nat)
    requires interval >= 100_000_000 && 1 <= maxHops <= 255
    requires (sweeps - 1) * interval < LossTimeout(interval)
    requires live <= maxHops * sweeps
    ensures live + maxHops <= ComputeRangeSize(interval, maxHops)
  {
    var n := SweepsPerWindow(interval);
    RangeSizeBounds(interval, maxHops);
    assert sweeps + 1 <= n by {
      Modular.CeilBound(LossTimeout(interval), interval, sweeps - 1);
    }
    hide SweepsPerWindow, ComputeRangeSize;
    Modular.MulMonotone(sweeps + 1, n, maxHops);
  }

  /** The sizing is tight: a backlog of full sweeps leaves room for the next one exactly while it is at
      least one sweep short of the computed number. */
  lemma RangeIsTight(interval: int, maxHops: int, sweeps: nat)
    requires interval >= 100_000_000 && 1 <= maxHops <= 255
    ensures maxHops * sweeps + maxHops <= ComputeRangeSize(interval, maxHops)
            <==> sweeps + 1 <= SweepsPerWindow(interval)
  {
    hide SweepsPerWindow;
    RangeSizeBounds(interval, maxHops);
    var n := SweepsPerWindow(interval);
    hide ComputeRangeSize;
    assert maxHops * sweeps + maxHops == (sweeps + 1) * maxHops;
    if sweeps + 1 <= n {
      Modular.MulMonotone(sweeps + 1, n, maxHops);
    } else {
      Modular.MulMonotone(n + 1, sweeps + 1, maxHops);
      assert (n + 1) * maxHops == n * maxHops + maxHops;
    }
  }

  // ------------------------------------------------------------------
  // The compare-and-swap loop
  // ------------------------------------------------------------------

  /** A claimed slice of the slot line, and the first port handed to its prober. The line restarts from zero
      each time the 32-bit cursor wraps; lap counts the restarts. */
  datatype Claim = Claim(lap: nat, start: nat, size: nat, port: int)

  /** One attempt, computed from the cursor value it loaded. */
  function Attempt(lap: nat, cur: Uint32, rangeSize: nat): Claim {
    var size := if rangeSize == 0 then RANGE_FACTOR else rangeSize;
    if cur % PORT_CAP + size > PORT_CAP then Claim(lap, (cur / PORT_CAP + 1) * PORT_CAP, size, PORT_BASE)
    else Claim(lap, cur, size, PORT_BASE + cur % PORT_CAP)
  }

  /** The shared cursor, the value each constructor has loaded but not yet swapped, and, as history, all
      claims and how often the cursor has wrapped. */
  datatype State = State(cursor: Uint32, loaded: map<nat, Uint32>, claims: seq<Claim>, lap: nat)

  datatype Event = Load(thread: nat) | CompareAndSwap(thread: nat, rangeSize: nat)

  function Step(s: State, e: Event): State {
    match e
    case Load(t) => s.(loaded := s.loaded[t := s.cursor])
    case CompareAndSwap(t, rangeSize) =>
      if t !in s.loaded then s
      else if s.loaded[t] != s.cursor then s.(loaded := s.loaded - {t})
      else
        var c := Attempt(s.lap, s.cursor, rangeSize);
        State((c.start + c.size) % TWO_TO_THE_32, s.loaded - {t}, s.claims + [c],
              s.lap + (c.start + c.size) / TWO_TO_THE_32)
  }

  function Run(s: State, events: seq<Event>): State {
    if events == [] then s else Step(Run(s, Front(events)), Last(events))
  }

  /** Every request fits under the cap, as RangeSizeBounds shows of every computed size. */
  predicate UnderCap(events: seq<Event>) {
    forall e | e in events && e.CompareAndSwap? :: e.rangeSize <= PORT_CAP
  }

  /** A claim is one contiguous run of 16-bit ports inside one turn of the port space. */
  ghost predicate Contiguous(c: Claim) {
    && 1 <= c.size
    && c.start / PORT_CAP == (c.start + c.size - 1) / PORT_CAP
    && c.port == PORT_BASE + c.start % PORT_CAP
    && c.port + c.size <= PORT_BASE + PORT_CAP < 0x1_0000
  }

  /** c ends before d begins. */
  predicate Before(c: Claim, d: Claim) { c.lap < d.lap || (c.lap == d.lap && c.start + c.size <= d.start) }

  /** c ends before the cursor. */
  predicate Past(c: Claim, lap: nat, cursor: int) { c.lap < lap || (c.lap == lap && c.start + c.size <= cursor) }

  ghost predicate Reserved(s: State) {
    && (forall i | 0 <= i < |s.claims| :: Contiguous(s.claims[i]) && Past(s.claims[i], s.lap, s.cursor))
    && (forall i, j | 0 <= i < j < |s.claims| :: Before(s.claims[i], s.claims[j]))
  }

  lemma AttemptIsContiguous(lap: nat, cur: Uint32, rangeSize: nat)
    requires rangeSize <= PORT_CAP
    ensures Contiguous(Attempt(lap, cur, rangeSize)) && Attempt(lap, cur, rangeSize).start >= cur
  {
    var c := Attempt(lap, cur, rangeSize);
    Modular.Quotient(cur, PORT_CAP);
    if c.start == cur {
      Modular.RemainderUnique(cur + c.size - 1, PORT_CAP, cur / PORT_CAP, cur % PORT_CAP + c.size - 1);
    } else {
      var q := cur / PORT_CAP + 1;
      Modular.RemainderUnique(q * PORT_CAP, PORT_CAP, q, 0);
      Modular.RemainderUnique(q * PORT_CAP + c.size - 1, PORT_CAP, q, c.size - 1);
    }
  }

  lemma SwapReserves(s: State, c: Claim)
    requires Reserved(s) && Contiguous(c) && c.lap == s.lap && c.start >= s.cursor
    ensures Reserved(s.(claims := s.claims + [c], cursor := (c.start + c.size) % TWO_TO_THE_32,
                        lap := s.lap + (c.start + c.size) / TWO_TO_THE_32))
  {
    hide Contiguous;
  }

  /** Under any interleaving of constructors, and across any number of wraps of the cursor, every claim is
      contiguous and the claims are pairwise disjoint on the slot line. */
  lemma {:induction false} ClaimsDisjoint(s: State, events: seq<Event>)
    requires Reserved(s) && UnderCap(events)
    ensures Reserved(Run(s, events))
  {
    hide Reserved, Attempt, Contiguous;
    if events != [] {
      assert forall e | e in Front(events) :: e in events;
      ClaimsDisjoint(s, Front(events));
      var u, e := Run(s, Front(events)), Last(events);
      assert e in events;
      if e.CompareAndSwap? && e.thread in u.loaded && u.loaded[e.thread] == u.cursor {
        AttemptIsContiguous(u.lap, u.cursor, e.rangeSize);
        AttemptLap(u.lap, u.cursor, e.rangeSize);
        var c := Attempt(u.lap, u.cursor, e.rangeSize);
        SwapReserves(u, c);
        OtherFields(u.(claims := u.claims + [c], cursor := (c.start + c.size) % TWO_TO_THE_32,
                       lap := u.lap + (c.start + c.size) / TWO_TO_THE_32), Step(u, e));
      } else {
        OtherFields(u, Step(u, e));
      }
    }
  }

  lemma AttemptLap(lap: nat, cur: Uint32, rangeSize: nat)
    ensures Attempt(lap, cur, rangeSize).lap == lap
  {
  }

  lemma OtherFields(s: State, u: State)
    requires u.claims == s.claims && u.cursor == s.cursor && u.lap == s.lap && Reserved(s)
    ensures Reserved(u)
  {
    hide Contiguous, Before, Past;
    assert forall i | 0 <= i < |s.claims| :: Past(s.claims[i], s.lap, s.cursor);
  }

  /** Two probers can share a port only when their claims come from different turns of the port space, or
      the cursor has wrapped between them. */
  lemma {:induction false} SharedPortMeansWrap(s: State, i: nat, j: nat, port: int)
    requires Reserved(s) && i < j < |s.claims|
    requires s.claims[i].port <= port < s.claims[i].port + s.claims[i].size
    requires s.claims[j].port <= port < s.claims[j].port + s.claims[j].size
    ensures var c, d := s.claims[i], s.claims[j];
            c.lap < d.lap || (c.lap == d.lap && c.start / PORT_CAP < d.start / PORT_CAP)
  {
    var c, d := s.claims[i], s.claims[j];
    assert Before(c, d);
    ClaimPosition(c);
    ClaimPosition(d);
  }

  lemma ClaimPosition(c: Claim)
    requires Contiguous(c)
    ensures c.start == PORT_CAP * (c.start / PORT_CAP) + (c.port - PORT_BASE)
  {
    Modular.Quotient(c.start, PORT_CAP);
  }

  // ------------------------------------------------------------------
  // Where a claim goes
  // ------------------------------------------------------------------

  /** At the cursor when it fits in what is left of the turn, and otherwise at the next turn's start. */
  ghost predicate Placed(c: Claim, cursor: int) {
    if cursor % PORT_CAP + c.size <= PORT_CAP then c.start == cursor
    else c.start % PORT_CAP == 0 && cursor < c.start < cursor + PORT_CAP
  }

  lemma AttemptIsPlaced(lap: nat, cur: Uint32, rangeSize: nat)
    requires rangeSize <= PORT_CAP
    ensures Placed(Attempt(lap, cur, rangeSize), cur)
    ensures Attempt(lap, cur, rangeSize).size == if rangeSize == 0 then RANGE_FACTOR else rangeSize
  {
    var q := cur / PORT_CAP + 1;
    Modular.Quotient(cur, PORT_CAP);
    Modular.RemainderUnique(q * PORT_CAP, PORT_CAP, q, 0);
  }

  /** The place on the line, counted from the start of this lap, where a claim ends. */
  function EndLap(c: Claim): nat { c.lap + (c.start + c.size) / TWO_TO_THE_32 }

  function EndCursor(c: Claim): Uint32 { (c.start + c.size) % TWO_TO_THE_32 }

  /** The next claim is placed from where this one ends: nothing is skipped between them. */
  ghost predicate Follows(c: Claim, d: Claim) { d.lap == EndLap(c) && Placed(d, EndCursor(c)) }

  /** The ranges asked for by the constructors whose swap succeeded, in order. */
  function Requests(s: State, events: seq<Event>): seq<nat> {
    if events == [] then []
    else
      var u, e := Run(s, Front(events)), Last(events);
      if e.CompareAndSwap? && e.thread in u.loaded && u.loaded[e.thread] == u.cursor
      then Requests(s, Front(events)) + [e.rangeSize]
      else Requests(s, Front(events))
  }

  ghost predicate Chained(s: State, requests: seq<nat>, lap: nat, cursor: Uint32) {
    && |s.claims| == |requests|
    && (forall i | 0 <= i < |requests| ::
          s.claims[i].size == if requests[i] == 0 then RANGE_FACTOR else requests[i])
    && (forall i | 0 < i < |s.claims| :: Follows(s.claims[i - 1], s.claims[i]))
    && (if s.claims == [] then s.lap == lap && s.cursor == cursor
        else
          && s.claims[0].lap == lap && Placed(s.claims[0], cursor)
          && s.lap == EndLap(Last(s.claims)) && s.cursor == EndCursor(Last(s.claims)))
  }

  lemma ChainGrows(s: State, requests: seq<nat>, lap: nat, cursor: Uint32, c: Claim, r: nat)
    requires Chained(s, requests, lap, cursor) && c.lap == s.lap && Placed(c, s.cursor)
    requires c.size == if r == 0 then RANGE_FACTOR else r
    ensures Chained(s.(claims := s.claims + [c], cursor := EndCursor(c), lap := EndLap(c)),
                    requests + [r], lap, cursor)
  {
    hide Placed, EndLap, EndCursor;
  }

  lemma SameChain(s: State, u: State, requests: seq<nat>, lap: nat, cursor: Uint32)
    requires Chained(s, requests, lap, cursor)
    requires u.claims == s.claims && u.cursor == s.cursor && u.lap == s.lap
    ensures Chained(u, requests, lap, cursor)
  {
    hide Placed, EndLap, EndCursor;
  }

  /** Every successful constructor gets the size it asked for, placed from the end of the claim before. */
  lemma {:induction false} ClaimsChained(s: State, events: seq<Event>)
    requires s.claims == [] && UnderCap(events)
    ensures Chained(Run(s, events), Requests(s, events), s.lap, s.cursor)
  {
    hide Attempt, Placed, Chained;
    if events == [] {
      assert Chained(s, [], s.lap, s.cursor) by {
        NothingClaimed(s);
      }
    } else {
      assert forall e | e in Front(events) :: e in events;
      ClaimsChained(s, Front(events));
      var u, e := Run(s, Front(events)), Last(events);
      var requests := Requests(s, Front(events));
      assert e in events;
      if e.CompareAndSwap? && e.thread in u.loaded && u.loaded[e.thread] == u.cursor {
        AttemptIsPlaced(u.lap, u.cursor, e.rangeSize);
        AttemptLap(u.lap, u.cursor, e.rangeSize);
        var c := Attempt(u.lap, u.cursor, e.rangeSize);
        ChainGrows(u, requests, s.lap, s.cursor, c, e.rangeSize);
        SameChain(u.(claims := u.claims + [c], cursor := EndCursor(c), lap := EndLap(c)), Step(u, e),
                  requests + [e.rangeSize], s.lap, s.cursor);
      } else {
        SameChain(u, Step(u, e), requests, s.lap, s.cursor);
      }
    }
  }

  lemma NothingClaimed(s: State)
    requires s.claims == []
    ensures Chained(s, [], s.lap, s.cursor)
  {
  }

  /** What claims i, .., j - 1 take up together. */
  function Taken(claims: seq<Claim>, i: nat, j: nat): nat
    requires i <= j <= |claims|
    decreases j
  {
    if i == j then 0 else Taken(claims, i, j - 1) + claims[j - 1].size
  }

  lemma {:induction false} LapsGrow(claims: seq<Claim>, i: nat, j: nat)
    requires i <= j < |claims| && forall k | 0 < k < |claims| :: Follows(claims[k - 1], claims[k])
    ensures claims[i].lap <= claims[j].lap
    decreases j
  {
    hide Placed;
    if i < j {
      LapsGrow(claims, i, j - 1);
      assert Follows(claims[j - 1], claims[j]);
    }
  }

  /** One claim further: b ends at taken, measured from c, and d follows it on the same lap. */
  lemma NextFits(c: Claim, b: Claim, d: Claim, taken: nat)
    requires Follows(b, d) && b.lap == d.lap && Contiguous(d)
    requires b.start + b.size == c.start + taken && c.start % PORT_CAP + taken + d.size <= PORT_CAP
    requires c.port == PORT_BASE + c.start % PORT_CAP && d.size >= 1
    ensures d.start == c.start + taken && d.port == c.port + taken
  {
    NoWrapBetween(b, d);
    Modular.Quotient(c.start, PORT_CAP);
    Modular.RemainderUnique(c.start + taken, PORT_CAP, c.start / PORT_CAP, c.start % PORT_CAP + taken);
  }

  /** Claims of one lap that fit together in what is left of a turn lie back to back, so their port ranges
      are disjoint. */
  lemma {:induction false} FittingClaimsAreBackToBack(claims: seq<Claim>, i: nat, j: nat)
    requires i <= j < |claims| && claims[i].lap == claims[j].lap
    requires forall k | 0 < k < |claims| :: Follows(claims[k - 1], claims[k])
    requires forall k | 0 <= k < |claims| :: Contiguous(claims[k])
    requires claims[i].start % PORT_CAP + Taken(claims, i, j + 1) <= PORT_CAP
    ensures claims[j].start == claims[i].start + Taken(claims, i, j)
    ensures claims[j].port == claims[i].port + Taken(claims, i, j)
    ensures i < j ==> claims[i].port + claims[i].size <= claims[j].port
    decreases j
  {
    assert Contiguous(claims[i]) && Contiguous(claims[j]);
    SizeAndPort(claims[i]);
    SizeAndPort(claims[j]);
    hide Follows, Contiguous;
    if i < j {
      LapsGrow(claims, i, j - 1);
      LapsGrow(claims, j - 1, j);
      FittingClaimsAreBackToBack(claims, i, j - 1);
      NextFits(claims[i], claims[j - 1], claims[j], Taken(claims, i, j));
      TakenAtLeast(claims, i, j);
    }
  }

  lemma SizeAndPort(c: Claim)
    requires Contiguous(c)
    ensures c.size >= 1 && c.port == PORT_BASE + c.start % PORT_CAP
  {
  }

  lemma {:induction false} TakenAtLeast(claims: seq<Claim>, i: nat, j: nat)
    requires i < j <= |claims|
    ensures Taken(claims, i, j) >= claims[i].size
    decreases j
  {
    if i + 1 < j {
      TakenAtLeast(claims, i, j - 1);
    }
  }

  lemma NoWrapBetween(c: Claim, d: Claim)
    requires Follows(c, d) && c.lap == d.lap
    ensures EndCursor(c) == c.start + c.size
  {
    Modular.Quotient(c.start + c.size, TWO_TO_THE_32);
  }
}
