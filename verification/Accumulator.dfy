/** The accumulator object: fields updated in place, one packet at a time
    (internal/stream/stats.go). Each method holds the mutex for its whole body. */
module Accumulator {
  import opened Prelude
  import Stats
  import Jitter

  datatype Snapshot = Snapshot(
    t: real,
    recv: int, lost: int, outOfOrder: int, duplicates: int,
    localDrops: int, kernelDrops: int,
    maxSeq: Uint64, jitterMS: real, bursts: Stats.Bursts)

  class Accumulator {
    const t0: int
    var recv: nat
    var outOfOrder: nat
    var duplicates: nat
    var lost: Int64
    var kernelDrops: int
    var localDrops: nat
    var expectedSeq: Uint64
    var maxSeq: Uint64
    var seenAny: bool
    var seen: set<Uint64>
    var lastTransitMS: real
    var hasTransit: bool
    var jitterMS: real
    var bursts: Stats.Bursts

    /** Every sequence number ever handed to Observe, and the stamps of the counted packets. */
    ghost var log: seq<Uint64>
    ghost var stamps: seq<Jitter.Stamp>

    ghost function Counts(): Stats.Counters
      requires lost >= 0
      reads this
    {
      Stats.Counters(recv, lost, outOfOrder, duplicates, expectedSeq, maxSeq, seenAny, seen, bursts)
    }

    ghost function JitterState(): Jitter.Jitter
      reads this
    {
      Jitter.Jitter(hasTransit, lastTransitMS, jitterMS)
    }

    /** The fields hold what the packets observed so far lead to. */
    ghost predicate Valid()
      reads this
    {
      && lost >= 0
      && Counts() == Stats.Run(log)
      && JitterState() == Jitter.Run(stamps)
    }

    constructor (t0: int)
      ensures Valid() && log == [] && stamps == [] && localDrops == 0 && this.t0 == t0
    {
      this.t0 := t0;
      recv, outOfOrder, duplicates, lost, kernelDrops, localDrops := 0, 0, 0, 0, 0, 0;
      expectedSeq, maxSeq, seenAny, seen := 0, 0, false, {};
      lastTransitMS, hasTransit, jitterMS := 0.0, false, 0.0;
      bursts := Stats.NO_BURSTS;
      log, stamps := [], [];
    }

    method Observe(s: Uint64, p: Jitter.Stamp)
      requires Valid()
      modifies this
      ensures Valid()
      ensures log == old(log) + [s]
      ensures stamps == if Stats.Counted(old(Counts()), s) then old(stamps) + [p] else old(stamps)
      ensures localDrops == old(localDrops) && kernelDrops == old(kernelDrops)
    {
      assert NoWrap() by {
        Stats.AlwaysBounded(log);
      }
      Stats.AppendFrontLast(log, s);
      log := log + [s];
      var counted := Account(s);
      if counted {
        UpdateJitter(p);
      }
    }

    ghost predicate NoWrap()
      reads this
    {
      0 <= lost && (if seenAny then lost < expectedSeq <= MAX_INT64 + 1 else lost == 0)
    }

    /** The two gates and the duplicate check; a packet that passes is accounted for. */
    method Account(s: Uint64) returns (counted: bool)
      requires NoWrap()
      modifies this`recv, this`lost, this`outOfOrder, this`duplicates, this`expectedSeq, this`maxSeq,
               this`seenAny, this`seen, this`bursts
      ensures NoWrap()
      ensures counted == Stats.Counted(old(Counts()), s)
      ensures Counts() == Stats.Observed(old(Counts()), s)
    {
      if s > MAX_INT64 {
        return false;
      }
      if seenAny && s > expectedSeq && s - expectedSeq > Stats.MAX_ACCEPTABLE_GAP {
        return false;
      }
      if s in seen {
        duplicates := duplicates + 1;
        return false;
      }
      if |seen| < Stats.MAX_SEEN_ENTRIES {
        seen := seen + {s};
      }
      recv := recv + 1;
      Advance(s);
      return true;
    }

    /** Moves the expected sequence number, or takes a loss back. Assigning to lost, expectedSeq
        and maxSeq carries the proof that no int64 or uint64 wraps. */
    method Advance(s: Uint64)
      requires NoWrap() && s <= MAX_INT64
      modifies this`lost, this`outOfOrder, this`expectedSeq, this`maxSeq, this`seenAny, this`bursts
      ensures NoWrap()
      ensures Counts() == Stats.Advanced(old(Counts()), s)
    {
      if !seenAny {
        seenAny := true;
        maxSeq := s;
        expectedSeq := s + 1;
        if s > 0 {
          RecordBurst(s);
          lost := lost + s;
        }
      } else if s >= expectedSeq {
        var gap: Int64 := s - expectedSeq;
        if gap > 0 {
          RecordBurst(gap);
          lost := lost + gap;
        }
        expectedSeq := s + 1;
        if s > maxSeq {
          maxSeq := s;
        }
      } else {
        outOfOrder := outOfOrder + 1;
        if lost > 0 {
          lost := lost - 1;
        }
      }
    }

    method RecordBurst(n: Int64)
      modifies this`bursts
      ensures bursts == Stats.RecordBurst(old(bursts), n)
    {
      if n <= 0 {
        return;
      }
      if n == 1 {
        bursts := bursts.(one := bursts.one + 1);
      } else if n == 2 {
        bursts := bursts.(two := bursts.two + 1);
      } else if n <= 9 {
        bursts := bursts.(three9 := bursts.three9 + 1);
      } else if n <= 99 {
        bursts := bursts.(ten99 := bursts.ten99 + 1);
      } else {
        bursts := bursts.(hundredUp := bursts.hundredUp + 1);
      }
      if n > bursts.max {
        bursts := bursts.(max := n);
      }
    }

    method UpdateJitter(p: Jitter.Stamp)
      requires JitterState() == Jitter.Run(stamps)
      modifies this`lastTransitMS, this`hasTransit, this`jitterMS, this`stamps
      ensures stamps == old(stamps) + [p]
      ensures JitterState() == Jitter.Run(stamps)
    {
      Stats.AppendFrontLast(stamps, p);
      stamps := stamps + [p];
      var transitMS := Jitter.TransitMS(p);
      if Jitter.Abs(transitMS) > Jitter.MAX_TRANSIT_MS {
        return;
      }
      if !hasTransit {
        hasTransit := true;
        lastTransitMS := transitMS;
        return;
      }
      var d := Jitter.Abs(transitMS - lastTransitMS);
      jitterMS := jitterMS + (d - jitterMS) / 16.0;
      lastTransitMS := transitMS;
    }

    method AddLocalDrop(n: nat)
      requires Valid()
      modifies this`localDrops
      ensures Valid() && localDrops == old(localDrops) + n
    {
      localDrops := localDrops + n;
    }

    method SetKernelDrops(n: int)
      requires Valid()
      modifies this`kernelDrops
      ensures Valid() && kernelDrops == n
    {
      kernelDrops := n;
    }

    /** The published view is the log's meaning; exact whenever the log stays below the duplicate cap. */
    method TakeSnapshot(now: int) returns (s: Snapshot)
      requires Valid()
      ensures var c, a := Stats.Run(log), Stats.Accepted(log);
              && s == Snapshot((now - t0) as real / 1000000000.0, c.recv, c.lost, c.outOfOrder, c.duplicates,
                               localDrops, kernelDrops, maxSeq, Jitter.Run(stamps).jitterMS, c.bursts)
              && s.lost <= |Stats.Missing(a)|
              && (|Elems(a)| <= Stats.MAX_SEEN_ENTRIES ==>
                    s.recv == |Elems(a)| && s.lost == |Stats.Missing(a)| && s.recv + s.lost == Stats.Limit(a))
    {
      Stats.AlwaysBounded(log);
      if |Elems(Stats.Accepted(log))| <= Stats.MAX_SEEN_ENTRIES {
        Stats.ExactBelowCap(log);
      }
      s := Snapshot((now - t0) as real / 1000000000.0, recv, lost, outOfOrder, duplicates,
                    localDrops, kernelDrops, maxSeq, jitterMS, bursts);
    }
  }
}
