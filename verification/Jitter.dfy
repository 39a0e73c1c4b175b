/** RFC 3550 interarrival jitter as the accumulator computes it (internal/stream/stats.go). */
module Jitter {
  import opened Prelude

  const MAX_TRANSIT_MS: real := 3600000.0

  datatype Jitter = Jitter(hasTransit: bool, lastTransitMS: real, jitterMS: real)

  const NO_JITTER := Jitter(false, 0.0, 0.0)

  /** The two clock readings of a packet, in nanoseconds. */
  datatype Stamp = Stamp(arrival: Int64, tx: Int64)

  function Abs(x: real): real { if x < 0.0 then -x else x }

  /** The int64 subtraction wraps on crafted timestamps. */
  function TransitNS(p: Stamp): Int64 { Wrap64(p.arrival - p.tx) }

  function TransitMS(p: Stamp): real { TransitNS(p) as real / 1000000.0 }

  predicate Plausible(p: Stamp) { Abs(TransitMS(p)) <= MAX_TRANSIT_MS }

  /** A transit time is in milliseconds, one million nanoseconds each, of which an hour is plausible. */
  lemma TransitMeaning(p: Stamp)
    ensures TransitMS(p) * 1_000_000.0 == TransitNS(p) as real
    ensures -MAX_INT64 - 1 <= p.arrival - p.tx <= MAX_INT64 ==> TransitNS(p) == p.arrival - p.tx
    ensures Plausible(p) <==> -3_600_000_000_000 <= TransitNS(p) <= 3_600_000_000_000
  {
  }

  function Updated(j: Jitter, p: Stamp): Jitter {
    if !Plausible(p) then j
    else if !j.hasTransit then Jitter(true, TransitMS(p), j.jitterMS)
    else Jitter(true, TransitMS(p), j.jitterMS + (Abs(TransitMS(p) - j.lastTransitMS) - j.jitterMS) / 16.0)
  }

  function Run(log: seq<Stamp>): Jitter {
    if log == [] then NO_JITTER else Updated(Run(Front(log)), Last(log))
  }

  // ------------------------------------------------------------------
  // The estimator of section 6.4.1 of RFC 3550 over a list of transit times
  // ------------------------------------------------------------------

  /** Transit times of the plausible packets, in order of arrival. */
  function Transits(log: seq<Stamp>): seq<real> {
    if log == [] then []
    else if Plausible(Last(log)) then Transits(Front(log)) + [TransitMS(Last(log))]
    else Transits(Front(log))
  }

  function Rfc3550(ts: seq<real>): real {
    if |ts| < 2 then 0.0
    else
      var j := Rfc3550(Front(ts));
      j + (Abs(ts[|ts| - 1] - ts[|ts| - 2]) - j) / 16.0
  }

  /** Implausible packets leave no trace; the rest feed the RFC estimator. */
  lemma {:induction false} RunIsRfc3550(log: seq<Stamp>)
    ensures var j, ts := Run(log), Transits(log);
            && j.jitterMS == Rfc3550(ts)
            && j.hasTransit == (ts != [])
            && (ts != [] ==> j.lastTransitMS == Last(ts))
  {
    if log != [] {
      RunIsRfc3550(Front(log));
      var ts := Transits(Front(log));
      assert Front(ts + [TransitMS(Last(log))]) == ts;
    }
  }

  ghost predicate ChangesWithin(ts: seq<real>, bound: real) {
    forall i, j | 0 <= i && j == i + 1 && j < |ts| :: Abs(ts[j] - ts[i]) <= bound
  }

  lemma {:induction false} Rfc3550Bounded(ts: seq<real>, bound: real)
    requires bound >= 0.0
    requires ChangesWithin(ts, bound)
    ensures 0.0 <= Rfc3550(ts) <= bound
  {
    if |ts| >= 2 {
      Rfc3550Bounded(Front(ts), bound);
    }
  }

  /** Jitter lies between zero and the largest change of transit time seen. */
  lemma {:induction false} JitterBounded(log: seq<Stamp>, bound: real)
    requires bound >= 0.0
    requires ChangesWithin(Transits(log), bound)
    ensures 0.0 <= Run(log).jitterMS <= bound
  {
    RunIsRfc3550(log);
    Rfc3550Bounded(Transits(log), bound);
  }

  lemma {:induction false} Rfc3550Shift(ts: seq<real>, us: seq<real>, delta: real)
    requires |ts| == |us| && forall i | 0 <= i < |ts| :: us[i] == ts[i] + delta
    ensures Rfc3550(ts) == Rfc3550(us)
  {
    if |ts| >= 2 {
      Rfc3550Shift(Front(ts), Front(us), delta);
    }
  }

  /** How often the int64 subtraction wrapped. */
  function Turns(x: int): (k: int)
    ensures x == Wrap64(x) + TWO_TO_THE_64 * k
  {
    (x - Wrap64(x)) / TWO_TO_THE_64
  }

  lemma PlausibleNS(p: Stamp)
    ensures Plausible(p) ==> -3_600_000_000_000 <= TransitNS(p) <= 3_600_000_000_000
  {
  }

  /** Wrapped differences that all stay small move together when the raw ones do. */
  lemma SameShift(x: int, x': int, y: int, y': int)
    requires x' - x == y' - y
    requires forall v | v in [Wrap64(x), Wrap64(x'), Wrap64(y), Wrap64(y')] ::
               -3_600_000_000_000 <= v <= 3_600_000_000_000
    ensures Wrap64(x') - Wrap64(x) == Wrap64(y') - Wrap64(y)
  {
    var k := Turns(x) - Turns(x') + Turns(y') - Turns(y);
    var vs := [Wrap64(x), Wrap64(x'), Wrap64(y), Wrap64(y')];
    assert vs[0] in vs && vs[1] in vs && vs[2] in vs && vs[3] in vs;
    assert (vs[1] - vs[0]) - (vs[3] - vs[2]) == TWO_TO_THE_64 * k;
  }

  lemma StampShiftNS(p: Stamp, p': Stamp, q: Stamp, q': Stamp)
    requires p'.arrival == p.arrival && q'.arrival == q.arrival && p'.tx - p.tx == q'.tx - q.tx
    requires Plausible(p) && Plausible(p') && Plausible(q) && Plausible(q')
    ensures TransitNS(p') - TransitNS(p) == TransitNS(q') - TransitNS(q)
  {
    hide Plausible, Wrap64;
    PlausibleNS(p);
    PlausibleNS(p');
    PlausibleNS(q);
    PlausibleNS(q');
    SameShift(p.arrival - p.tx, p'.arrival - p'.tx, q.arrival - q.tx, q'.arrival - q'.tx);
  }

  lemma StampShift(p: Stamp, p': Stamp, q: Stamp, q': Stamp)
    requires p'.arrival == p.arrival && q'.arrival == q.arrival && p'.tx - p.tx == q'.tx - q.tx
    requires Plausible(p) && Plausible(p') && Plausible(q) && Plausible(q')
    ensures TransitMS(p') - TransitMS(p) == TransitMS(q') - TransitMS(q)
  {
    hide Plausible, TransitNS;
    StampShiftNS(p, p', q, q');
    RealDifference(TransitNS(p), TransitNS(p'));
    RealDifference(TransitNS(q), TransitNS(q'));
  }

  lemma RealDifference(x: int, y: int)
    ensures y as real / 1000000.0 - x as real / 1000000.0 == (y - x) as real / 1000000.0
  {
  }

  lemma {:induction false} TransitsOfPlausible(log: seq<Stamp>)
    requires forall p | p in log :: Plausible(p)
    ensures |Transits(log)| == |log|
    ensures forall i | 0 <= i < |log| :: Transits(log)[i] == TransitMS(log[i])
  {
    if log != [] {
      assert forall p | p in Front(log) :: p in log;
      assert Last(log) in log;
      TransitsOfPlausible(Front(log));
    }
  }

  /** Clock skew cancels: adding one constant to every send time leaves the jitter alone. */
  lemma {:induction false} SkewCancels(log: seq<Stamp>, skewed: seq<Stamp>, c: int)
    requires |log| == |skewed|
    requires forall i | 0 <= i < |log| :: skewed[i].arrival == log[i].arrival && skewed[i].tx == log[i].tx + c
    requires forall i | 0 <= i < |log| :: Plausible(log[i]) && Plausible(skewed[i])
    ensures Run(log).jitterMS == Run(skewed).jitterMS
  {
    RunIsRfc3550(log);
    RunIsRfc3550(skewed);
    TransitsOfPlausible(log);
    TransitsOfPlausible(skewed);
    if log != [] {
      var delta := TransitMS(skewed[0]) - TransitMS(log[0]);
      forall i | 0 <= i < |log|
        ensures Transits(skewed)[i] == Transits(log)[i] + delta
      {
        StampShift(log[0], skewed[0], log[i], skewed[i]);
      }
      Rfc3550Shift(Transits(log), Transits(skewed), delta);
    }
  }
}
