/** Rolling statistics of one hop (internal/probe/hopstats.go), over exact reals. */
module HopStats {
  import opened Prelude

  datatype Hop = Hop(
    addr: Option<nat>,
    sent: int, recv: nat, inflight: int,
    last: real, best: real, worst: real,
    mean: real, m2: real,
    ewma: real, ewmaInit: bool,
    terminus: bool)

  const FRESH_HOP := Hop(None, 0, 0, 0, 0.0, 0.0, 0.0, 0.0, 0.0, 0.0, false, false)

  /** Welford's running mean and sum of squared deviations, after the n-th reply. */
  function MeanStep(n: nat, mean: real, rtt: real): real
    requires n >= 1
  {
    if n == 1 then rtt else mean + (rtt - mean) / n as real
  }

  function M2Step(n: nat, mean: real, m2: real, rtt: real): real
    requires n >= 1
  {
    if n == 1 then m2 else m2 + (rtt - mean) * (rtt - MeanStep(n, mean, rtt))
  }

  function EwmaStep(seeded: bool, ewma: real, rtt: real): real {
    if seeded then 0.2 * rtt + 0.8 * ewma else rtt
  }

  /** One reply folded in; the first responder fixes the address. */
  function Replied(h: Hop, src: Option<nat>, rtt: real, terminus: bool): Hop {
    var n := h.recv + 1;
    h.(addr := if h.addr == None then src else h.addr,
       recv := n,
       last := rtt,
       best := if n == 1 then rtt else MinReal(rtt, h.best),
       worst := if n == 1 then rtt else MaxReal(rtt, h.worst),
       mean := MeanStep(n, h.mean, rtt),
       m2 := M2Step(n, h.mean, h.m2, rtt),
       ewma := EwmaStep(h.ewmaInit, h.ewma, rtt),
       ewmaInit := true,
       terminus := h.terminus || terminus)
  }

  function Settled(h: Hop): int { h.sent - h.inflight }

  function LossPct(h: Hop): real {
    if Settled(h) > 0 then (Settled(h) - h.recv) as real / Settled(h) as real * 100.0 else 0.0
  }

  /** Sample variance; the published deviation is its non-negative root. */
  function Variance(h: Hop): real {
    if h.recv < 2 then 0.0 else h.m2 / (h.recv - 1) as real
  }

  /** A hop whose counters are consistent never reports an impossible loss. */
  lemma LossPctInRange(h: Hop)
    requires h.recv + h.inflight <= h.sent
    ensures 0.0 <= LossPct(h) <= 100.0
    ensures LossPct(h) == 0.0 <==> h.recv == Settled(h) || Settled(h) == 0
  {
    var s := Settled(h) as real;
    var lost := (Settled(h) - h.recv) as real;
    if s > 0.0 {
      assert 0.0 <= lost <= s;
      var q := lost / s;
      assert q * s == lost;
      assert q < 0.0 ==> q * s < 0.0;
      assert q > 1.0 ==> q * s > s;
    }
  }

  // ------------------------------------------------------------------
  // What the rolling estimators stand for
  // ------------------------------------------------------------------

  function Total(xs: seq<real>): real {
    if xs == [] then 0.0 else Total(Front(xs)) + Last(xs)
  }

  /** Sum of squared deviations from c. */
  function Spread(xs: seq<real>, c: real): real {
    if xs == [] then 0.0 else Spread(Front(xs), c) + (Last(xs) - c) * (Last(xs) - c)
  }

  function Squares(xs: seq<real>): real {
    if xs == [] then 0.0 else Squares(Front(xs)) + Last(xs) * Last(xs)
  }

  function Least(xs: seq<real>): (m: real)
    requires xs != []
    ensures m in xs && forall x | x in xs :: m <= x
  {
    if |xs| == 1 then xs[0]
    else
      assert xs == Front(xs) + [Last(xs)];
      MinReal(Last(xs), Least(Front(xs)))
  }

  function Greatest(xs: seq<real>): (m: real)
    requires xs != []
    ensures m in xs && forall x | x in xs :: x <= m
  {
    if |xs| == 1 then xs[0]
    else
      assert xs == Front(xs) + [Last(xs)];
      MaxReal(Last(xs), Greatest(Front(xs)))
  }

  function Replies(xs: seq<real>): (h: Hop)
    ensures h.recv == |xs|
  {
    if xs == [] then FRESH_HOP else Replied(Replies(Front(xs)), None, Last(xs), false)
  }

  lemma SquareOfDifference(x: real, c: real)
    ensures (x - c) * (x - c) == x * x - 2.0 * (c * x) + c * c
  {
  }

  lemma Distribute(a: real, b: real, c: real)
    ensures a * (b + c) == a * b + a * c
    ensures (b + c) * a == b * a + c * a
  {
  }

  lemma SpreadStep(spread: real, squares: real, total: real, n: real, x: real, c: real)
    requires spread == squares - 2.0 * (c * total) + n * (c * c)
    ensures spread + (x - c) * (x - c) == (squares + x * x) - 2.0 * (c * (total + x)) + (n + 1.0) * (c * c)
  {
    SquareOfDifference(x, c);
    Distribute(c, total, x);
    Distribute(c * c, n, 1.0);
  }

  lemma {:induction false} SpreadExpands(xs: seq<real>, c: real)
    ensures Spread(xs, c) == Squares(xs) - 2.0 * (c * Total(xs)) + |xs| as real * (c * c)
  {
    if xs != [] {
      var f := Front(xs);
      SpreadExpands(f, c);
      SpreadStep(Spread(f, c), Squares(f), Total(f), |f| as real, Last(xs), c);
      var n := |xs| as real;
      assert n == |f| as real + 1.0;
    } else {
      assert Total(xs) == 0.0;
    }
  }

  /** Welford's recurrence as an identity between sums: q is the step of the mean. */
  lemma WelfordStep(n: real, m: real, d: real, q: real)
    requires q * (n + 1.0) == d
    ensures (n + 1.0) * (m + q) == n * m + (m + d)
    ensures d * (d - q) == n * (m * m) + (m + d) * (m + d) - (n + 1.0) * ((m + q) * (m + q))
  {
    Distribute(n + 1.0, m, q);
    Distribute(m, n, 1.0);
    var p := n + 1.0;
    assert p * q == d;
    // p (m + q)^2 = p m^2 + 2 m (p q) + q (p q)
    Distribute(m + q, m, q);
    Distribute(m, m, q);
    Distribute(q, m, q);
    assert (m + q) * (m + q) == m * m + 2.0 * (m * q) + q * q;
    assert p * (m * q) == m * d by {
      assert p * (m * q) == m * (p * q);
    }
    assert p * (q * q) == q * d by {
      assert p * (q * q) == q * (p * q);
    }
    Distribute(p, m * m + 2.0 * (m * q), q * q);
    Distribute(p, m * m, 2.0 * (m * q));
    assert p * (2.0 * (m * q)) == 2.0 * (p * (m * q));
    assert p * (m * m) == n * (m * m) + m * m;
    SquareOfDifference(m, -d);
  }

  /** One reply moves the sums by one term. */
  lemma ReplyStep(h: Hop, x: real, s: real, sq: real)
    requires h.recv >= 1
    requires h.recv as real * h.mean == s && h.m2 == sq - h.recv as real * (h.mean * h.mean)
    ensures var g := Replied(h, None, x, false);
            && g.recv as real * g.mean == s + x
            && g.m2 == (sq + x * x) - g.recv as real * (g.mean * g.mean)
  {
    var n, d := h.recv as real, x - h.mean;
    var q := d / (h.recv + 1) as real;
    assert (h.recv + 1) as real == n + 1.0;
    WelfordStep(n, h.mean, d, q);
    assert x - (h.mean + q) == d - q;
  }

  lemma FirstReply(x: real)
    ensures var h := Replied(FRESH_HOP, None, x, false);
            && h.recv == 1
            && 1.0 * h.mean == 0.0 + x
            && h.m2 == (0.0 + x * x) - 1.0 * (h.mean * h.mean)
  {
  }

  /** Mean, squares, extremes and baseline are what their names say, after any list of replies. */
  lemma {:induction false} EstimatorsMean(xs: seq<real>)
    requires xs != []
    ensures var h := Replies(xs);
            && |xs| as real * h.mean == Total(xs)
            && h.m2 == Squares(xs) - |xs| as real * (h.mean * h.mean)
  {
    hide Replied;
    var f := Front(xs);
    if |xs| == 1 {
      assert f == [];
      FirstReply(Last(xs));
    } else {
      EstimatorsMean(f);
      ReplyStep(Replies(f), Last(xs), Total(f), Squares(f));
    }
  }

  lemma {:induction false} ExtremesMean(xs: seq<real>)
    requires xs != []
    ensures var h := Replies(xs);
            && h.best == Least(xs) && h.worst == Greatest(xs) && h.last == Last(xs)
            && h.ewmaInit && h.best <= h.ewma <= h.worst
  {
    if |xs| == 1 {
      assert Front(xs) == [];
    } else {
      ExtremesMean(Front(xs));
    }
  }

  lemma {:induction false} MeanBetween(xs: seq<real>, lo: real, hi: real)
    requires forall x | x in xs :: lo <= x <= hi
    ensures |xs| as real * lo <= Total(xs) <= |xs| as real * hi
  {
    if xs != [] {
      assert forall x | x in Front(xs) :: x in xs;
      assert Last(xs) in xs;
      MeanBetween(Front(xs), lo, hi);
      assert |xs| as real == |Front(xs)| as real + 1.0;
      Distribute(lo, |Front(xs)| as real, 1.0);
      Distribute(hi, |Front(xs)| as real, 1.0);
    }
  }

  lemma QuotientBetween(n: real, total: real, lo: real, m: real, hi: real)
    requires n > 0.0 && n * m == total && n * lo <= total <= n * hi
    ensures lo <= m <= hi
  {
    Distribute(n, m, -lo);
    Distribute(n, hi, -m);
    assert n * (m - lo) >= 0.0;
    assert n * (hi - m) >= 0.0;
  }

  lemma {:induction false} SpreadNonNegative(xs: seq<real>, c: real)
    ensures Spread(xs, c) >= 0.0
  {
    if xs != [] {
      SpreadNonNegative(Front(xs), c);
      var d := Last(xs) - c;
      assert d * d >= 0.0;
    }
  }

  lemma {:induction false} MeanWithin(xs: seq<real>, lo: real, hi: real)
    requires xs != [] && forall x | x in xs :: lo <= x <= hi
    ensures lo <= Replies(xs).mean <= hi
  {
    hide Replies, Replied, Total;
    EstimatorsMean(xs);
    MeanBetween(xs, lo, hi);
    QuotientBetween(|xs| as real, Total(xs), lo, Replies(xs).mean, hi);
  }

  lemma {:induction false} MeanWithinExtremes(xs: seq<real>)
    requires xs != []
    ensures var h := Replies(xs); h.best <= h.mean <= h.worst
  {
    hide Replies, Replied, Least, Greatest;
    ExtremesMean(xs);
    MeanWithin(xs, Least(xs), Greatest(xs));
  }

  lemma Regroup(n: real, m: real)
    ensures m * (n * m) == n * (m * m)
  {
  }

  /** m2 is the sum of squared deviations from the published mean. */
  lemma {:induction false} DispersionMeaning(xs: seq<real>)
    requires xs != []
    ensures Replies(xs).m2 == Spread(xs, Replies(xs).mean)
    ensures Replies(xs).m2 >= 0.0
  {
    hide Replied, Spread, Squares, Total, Replies;
    var m := Replies(xs).mean;
    EstimatorsMean(xs);
    SpreadExpands(xs, m);
    Regroup(|xs| as real, m);
    SpreadNonNegative(xs, m);
  }

  /** So the variance is non-negative and the published deviation is a real root. */
  lemma {:induction false} VarianceHasRoot(xs: seq<real>)
    ensures Variance(Replies(xs)) >= 0.0
  {
    if |xs| >= 2 {
      DispersionMeaning(xs);
      assert Replies(xs).recv == |xs|;
    }
  }

  // ------------------------------------------------------------------
  // The baseline
  // ------------------------------------------------------------------

  function Pow(b: real, n: nat): real { if n == 0 then 1.0 else b * Pow(b, n - 1) }

  /** How much the k-th of n replies weighs in the baseline. */
  function Weight(k: nat, n: nat): real
    requires k < n
  {
    if k == 0 then Pow(0.8, n - 1) else 0.2 * Pow(0.8, n - 1 - k)
  }

  /** The weighted sum of the first replies of n. */
  function Decayed(xs: seq<real>, n: nat): real
    requires |xs| <= n
  {
    if xs == [] then 0.0 else Decayed(Front(xs), n) + Weight(|xs| - 1, n) * Last(xs)
  }

  lemma {:induction false} DecayStep(xs: seq<real>, n: nat)
    requires |xs| <= n
    ensures Decayed(xs, n + 1) == 0.8 * Decayed(xs, n)
  {
    if xs != [] {
      DecayStep(Front(xs), n);
      assert Weight(|xs| - 1, n + 1) == 0.8 * Weight(|xs| - 1, n);
    }
  }

  /** The baseline is the weighted mean of all replies whose weights fall by a fifth with each later one. */
  lemma {:induction false} BaselineMeaning(xs: seq<real>)
    requires xs != []
    ensures Replies(xs).ewma == Decayed(xs, |xs|) && Replies(xs).ewmaInit
  {
    var f := Front(xs);
    assert Pow(0.8, 0) == 1.0;
    if |xs| == 1 {
      assert f == [] && Decayed(f, 1) == 0.0;
    } else {
      BaselineMeaning(f);
      DecayStep(f, |f|);
    }
  }

  /** The hop object; its caller holds the prober's lock. */
  class HopState {
    var addr: Option<nat>
    var sent: int
    var recv: nat
    var inflight: int
    var last: real
    var best: real
    var worst: real
    var mean: real
    var m2: real
    var ewma: real
    var ewmaInit: bool
    var terminus: bool

    ghost function View(): Hop
      reads this
    {
      Hop(addr, sent, recv, inflight, last, best, worst, mean, m2, ewma, ewmaInit, terminus)
    }

    constructor ()
      ensures View() == FRESH_HOP
    {
      addr, sent, recv, inflight := None, 0, 0, 0;
      last, best, worst, mean, m2, ewma, ewmaInit, terminus := 0.0, 0.0, 0.0, 0.0, 0.0, 0.0, false, false;
    }

    method RecordReply(src: Option<nat>, rtt: real, isTerminus: bool)
      modifies this
      ensures View() == Replied(old(View()), src, rtt, isTerminus)
    {
      hide MeanStep, M2Step, EwmaStep;
      if addr == None && src != None {
        addr := src;
      }
      recv := recv + 1;
      last := rtt;
      if recv == 1 {
        best, worst := rtt, rtt;
      } else {
        if rtt < best {
          best := rtt;
        }
        if rtt > worst {
          worst := rtt;
        }
      }
      FoldMoments(rtt);
      FoldBaseline(rtt);
      if isTerminus {
        terminus := true;
      }
    }

    /** Welford's single-pass update; the reply has already been counted. */
    method FoldMoments(rtt: real)
      requires recv >= 1
      modifies this`mean, this`m2
      ensures mean == MeanStep(recv, old(mean), rtt) && m2 == M2Step(recv, old(mean), old(m2), rtt)
    {
      if recv == 1 {
        mean := rtt;
      } else {
        var delta := rtt - mean;
        mean := mean + delta / recv as real;
        var delta2 := rtt - mean;
        m2 := m2 + delta * delta2;
      }
    }

    method FoldBaseline(rtt: real)
      modifies this`ewma, this`ewmaInit
      ensures ewma == EwmaStep(old(ewmaInit), old(ewma), rtt) && ewmaInit
    {
      if !ewmaInit {
        ewma := rtt;
        ewmaInit := true;
      } else {
        ewma := 0.2 * rtt + (1.0 - 0.2) * ewma;
      }
    }
  }
}
