/** The paced sender (internal/stream/sender.go). The clock is the sequence of readings the loop will take;
    when it runs out the context has been cancelled. */
module Sender {
  import opened Prelude
  import Modular

  datatype Packet = Packet(seqNo: nat, at: int)

  datatype Outcome = Finished | Cancelled | WriteFailed

  ghost predicate NonDecreasing(clock: seq<int>) { forall i, j | 0 <= i < j < |clock| :: clock[i] <= clock[j] }

  const SECOND: nat := 1_000_000_000
  const MILLISECOND: nat := 1_000_000

  /** Nanoseconds between packets of a stream of rateBPS bits per second. */
  function Interval(packetSize: nat, rateBPS: nat): (i: nat)
    requires rateBPS > 0
    ensures i >= 1
  {
    Max(1, packetSize * 8 * SECOND / rateBPS)
  }

  /** The time the packet's bits take at the given rate, rounded down but never to nothing. */
  lemma IntervalMeaning(packetSize: nat, rateBPS: nat)
    requires rateBPS > 0
    ensures var i, bits := Interval(packetSize, rateBPS), packetSize * 8;
            && bits * SECOND < (i + 1) * rateBPS
            && (i * rateBPS <= bits * SECOND || i == 1)
  {
    hide Interval;
    var bits := packetSize * 8;
    var q := bits * SECOND / rateBPS;
    Modular.Quotient(bits * SECOND, rateBPS);
    IntervalIs(packetSize, rateBPS, q);
    Modular.SplitSum(rateBPS, q, 1);
    Modular.SplitSum(rateBPS, 1, 1);
  }

  lemma IntervalIs(packetSize: nat, rateBPS: nat, q: nat)
    requires rateBPS > 0 && q == packetSize * 8 * SECOND / rateBPS
    ensures Interval(packetSize, rateBPS) == Max(1, q)
  {
  }

  /** Blocks until the clock has reached target: busily, or asleep on a timer that never fires early. */
  method WaitUntil(clock: seq<int>, from: nat, target: int, busy: bool) returns (ok: bool, k: nat)
    requires NonDecreasing(clock) && from <= |clock|
    ensures from <= k <= |clock|
    ensures ok ==> from < k && forall j | k <= j < |clock| :: clock[j] >= target
    ensures ok ==> forall j | from < j < k - 1 :: clock[j] < target
    ensures !ok ==> k == |clock| && forall j | from < j < |clock| :: clock[j] < target
  {
    k := from;
    if busy {
      while k < |clock|
        invariant from <= k <= |clock|
        invariant forall j | from <= j < k :: clock[j] < target
      {
        k := k + 1;
        if !(clock[k - 1] < target) {
          return true, k;
        }
      }
      return false, k;
    }
    if k == |clock| {
      return false, k;
    }
    var wait := target - clock[k];
    k := k + 1;
    if wait <= 0 {
      return true, k;
    }
    while k < |clock| && clock[k] < target
      invariant from < k <= |clock|
      invariant forall j | from < j < k :: clock[j] < target
    {
      k := k + 1;
    }
    ok := k < |clock|;
  }

  /** What the packet numbered n was allowed to do, given when it and its predecessor were stamped. */
  ghost predicate Paced(clock: seq<int>, interval: nat, duration: int, stamps: seq<nat>, n: nat)
    requires |clock| > 0 && n < |stamps|
  {
    var t0 := clock[0];
    var previous := if n == 0 then 0 else stamps[n - 1];
    && previous + 2 < stamps[n] < |clock|
    && clock[stamps[n]] >= t0 + n * interval
    && (duration > 0 ==> clock[previous + 1] < t0 + duration)
    && (forall j | previous + 2 < j < stamps[n] - 1 :: clock[j] < t0 + n * interval)
  }

  ghost predicate PacedRun(clock: seq<int>, interval: nat, duration: int, stamps: seq<nat>) {
    |clock| > 0 && forall n | 0 <= n < |stamps| :: Paced(clock, interval, duration, stamps, n)
  }

  /** The packets carry 0, 1, 2, ... and the clock readings at the given places. */
  ghost predicate Stamped(log: seq<Packet>, clock: seq<int>, stamps: seq<nat>) {
    |log| == |stamps| && forall n | 0 <= n < |log| :: stamps[n] < |clock| && log[n] == Packet(n, clock[stamps[n]])
  }

  lemma PacedAppend(clock: seq<int>, interval: nat, duration: int, stamps: seq<nat>, k: nat)
    requires PacedRun(clock, interval, duration, stamps)
    requires Paced(clock, interval, duration, stamps + [k], |stamps|)
    ensures PacedRun(clock, interval, duration, stamps + [k])
  {
    forall n | 0 <= n < |stamps|
      ensures Paced(clock, interval, duration, stamps + [k], n)
    {
      assert Paced(clock, interval, duration, stamps, n);
    }
  }

  /** The loop's place in the clock: just past the latest stamp. */
  ghost function Place(stamps: seq<nat>): nat { if stamps == [] then 1 else Last(stamps) + 1 }

  lemma OnePaced(clock: seq<int>, interval: nat, duration: int, stamps: seq<nat>, k: nat, target: int)
    requires |clock| > 0 && Place(stamps) + 1 < k < |clock| && target == clock[0] + |stamps| * interval
    requires duration > 0 ==> clock[Place(stamps)] < clock[0] + duration
    requires clock[k] >= target && forall j | Place(stamps) + 1 < j < k - 1 :: clock[j] < target
    ensures Paced(clock, interval, duration, stamps + [k], |stamps|)
  {
  }

  /** The clock ran out on the packet after the last stamped one: while the loop looked at it, while its slot
      was not yet due, or just before it could be stamped. */
  ghost predicate CutShort(clock: seq<int>, interval: nat, duration: int, stamps: seq<nat>) {
    && 1 <= Place(stamps) <= |clock|
    && (duration > 0 && Place(stamps) < |clock| ==> clock[Place(stamps)] < clock[0] + duration)
    && (forall j | Place(stamps) + 1 < j < |clock| - 1 :: clock[j] < clock[0] + |stamps| * interval)
  }

  /** The whole loop. Packets are stamped 0, 1, 2, ... in order; none before its slot, none held back once
      its slot is due; and the loop goes on until the duration is over, unless something stops it. */
  method Run(packetSize: nat, rateBPS: nat, duration: int, clock: seq<int>, failAt: nat)
      returns (log: seq<Packet>, r: Outcome, ghost stamps: seq<nat>)
    requires rateBPS > 0 && |clock| > 0 && NonDecreasing(clock)
    ensures Stamped(log, clock, stamps) && PacedRun(clock, Interval(packetSize, rateBPS), duration, stamps)
    ensures r == Finished ==> duration > 0 && exists k :: 0 <= k < |clock| && clock[k] >= clock[0] + duration
    ensures r == WriteFailed ==> |log| == failAt
    ensures r == Cancelled ==> CutShort(clock, Interval(packetSize, rateBPS), duration, stamps)
    ensures |log| <= failAt
  {
    hide Paced;
    var interval := packetSize * 8 * SECOND / rateBPS;
    if interval < 1 {
      interval := 1;
    }
    var busy := interval < MILLISECOND;
    var t0 := clock[0];
    var k := 1;
    var seqNo := 0;
    log, stamps := [], [];
    while k < |clock|
      invariant k == Place(stamps) <= |clock| && seqNo == |log| <= failAt
      invariant Stamped(log, clock, stamps) && PacedRun(clock, interval, duration, stamps)
      decreases |clock| - k
    {
      var now := clock[k];
      if duration > 0 && now - t0 >= duration {
        return log, Finished, stamps;
      }
      var target := t0 + seqNo * interval;
      var ok;
      ok, k := WaitUntil(clock, k + 1, target, busy);
      if !ok || k == |clock| {
        return log, Cancelled, stamps;
      }
      if seqNo == failAt {
        return log, WriteFailed, stamps;
      }
      OnePaced(clock, interval, duration, stamps, k, target);
      PacedAppend(clock, interval, duration, stamps, k);
      log, stamps := log + [Packet(seqNo, clock[k])], stamps + [k];
      seqNo := seqNo + 1;
      k := k + 1;
    }
    r := Cancelled;
  }

  // ------------------------------------------------------------------
  // Rate bounds over the whole run
  // ------------------------------------------------------------------

  /** How many packets had been stamped by time t. */
  function SentBy(clock: seq<int>, stamps: seq<nat>, t: int): nat
    requires forall n | 0 <= n < |stamps| :: stamps[n] < |clock|
  {
    if stamps == [] then 0
    else SentBy(clock, Front(stamps), t) + if clock[Last(stamps)] <= t then 1 else 0
  }

  lemma StampsInRange(clock: seq<int>, interval: nat, duration: int, stamps: seq<nat>)
    requires PacedRun(clock, interval, duration, stamps)
    ensures forall n | 0 <= n < |stamps| :: stamps[n] < |clock| && clock[stamps[n]] >= clock[0] + n * interval
  {
    forall n | 0 <= n < |stamps|
      ensures stamps[n] < |clock| && clock[stamps[n]] >= clock[0] + n * interval
    {
      assert Paced(clock, interval, duration, stamps, n);
    }
  }

  lemma {:induction false} SentByAtMost(clock: seq<int>, interval: nat, stamps: seq<nat>, t: int, m: nat)
    requires |clock| > 0 && interval >= 1
    requires forall n | 0 <= n < |stamps| :: stamps[n] < |clock| && clock[stamps[n]] >= clock[0] + n * interval
    requires t < clock[0] + m * interval
    ensures SentBy(clock, stamps, t) <= Min(m, |stamps|)
  {
    if stamps != [] {
      SentByAtMost(clock, interval, Front(stamps), t, m);
      var n := |stamps| - 1;
      if n >= m {
        Modular.MulMonotone(m, n, interval);
      }
    }
  }

  /** At no moment has the sender emitted more than elapsed / interval + 1 packets, stalls and catch-up
      bursts included. */
  lemma {:induction false} NeverAheadOfSchedule(
      clock: seq<int>, interval: nat, duration: int, stamps: seq<nat>, t: int)
    requires PacedRun(clock, interval, duration, stamps) && interval >= 1 && t >= clock[0]
    requires forall n | 0 <= n < |stamps| :: stamps[n] < |clock|
    ensures SentBy(clock, stamps, t) <= (t - clock[0]) / interval + 1
  {
    StampsInRange(clock, interval, duration, stamps);
    var e := t - clock[0];
    var m := e / interval + 1;
    Modular.Quotient(e, interval);
    assert m * interval == interval * (e / interval) + interval;
    SentByAtMost(clock, interval, stamps, t, m);
  }

  /** A run with a duration sends at most ceil(duration / interval) + 1 packets. */
  lemma {:induction false} DurationBoundsPackets(clock: seq<int>, interval: nat, duration: nat, stamps: seq<nat>)
    requires PacedRun(clock, interval, duration, stamps) && NonDecreasing(clock) && interval >= 1 && duration > 0
    ensures |stamps| <= duration / interval + (if duration % interval > 0 then 1 else 0) + 1
  {
    var n := |stamps| - 1;
    if n >= 1 {
      assert Paced(clock, interval, duration, stamps, n);
      assert Paced(clock, interval, duration, stamps, n - 1);
      var p := stamps[n - 1];
      assert clock[p] <= clock[p + 1];
      Modular.CeilBound(duration, interval, n - 1);
    }
  }
}
