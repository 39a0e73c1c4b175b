/** The interpolated percentile of the correlator (internal/agg/correlate.go), over exact reals. */
module Quantiles {
  import opened Prelude
  import opened Sorting

  const ASCENDING: (real, real) -> bool := (x, y) => x < y

  function Clamped(q: real): (r: real)
    ensures 0.0 <= r <= 1.0
    ensures 0.0 <= q <= 1.0 ==> r == q
  {
    if q <= 0.0 then 0.0 else if q >= 1.0 then 1.0 else q
  }

  function Times(x: real, y: real): real { x * y }

  function Ceil(x: real): int { -((-x).Floor) }

  /** Linear interpolation between the two ranks around pos. */
  function Between(s: seq<real>, pos: real): real
    requires s != [] && 0.0 <= pos <= (|s| - 1) as real
  {
    var lo, hi := pos.Floor, Ceil(pos);
    if lo == hi then s[lo] else s[lo] + Times(pos - lo as real, s[hi] - s[lo])
  }

  function Rank(q: real, n: nat): (pos: real)
    requires n >= 1 && 0.0 <= q <= 1.0
    ensures 0.0 <= pos <= (n - 1) as real
    ensures pos == Times(q, (n - 1) as real)
  {
    TimesGrows(q, q, (n - 1) as real);
    Times(q, (n - 1) as real)
  }

  lemma Shrinks(q: real, m: real)
    requires 0.0 <= q <= 1.0 && m >= 0.0
    ensures 0.0 <= q * m <= m
  {
    assert m - q * m == (1.0 - q) * m;
  }

  /** A larger fraction of the same amount is no smaller. */
  lemma TimesGrows(f: real, g: real, d: real)
    requires d >= 0.0 && 0.0 <= f <= g <= 1.0
    ensures 0.0 <= Times(f, d) <= Times(g, d) <= d
  {
    Shrinks(f, d);
    Shrinks(g, d);
    Shrinks(g - f, d);
    assert g * d - f * d == (g - f) * d;
  }

  function Percentile(values: seq<real>, q: real): real {
    if values == [] then 0.0
    else
      var sorted := Sort(values, ASCENDING);
      SortPermutes(values, ASCENDING);
      if |sorted| == 1 then sorted[0] else Between(sorted, Rank(Clamped(q), |sorted|))
  }

  // ------------------------------------------------------------------
  // Meaning
  // ------------------------------------------------------------------

  ghost predicate Rising(s: seq<real>) { forall i, j | 0 <= i < j < |s| :: s[i] <= s[j] }

  lemma AscendingIsOrder()
    ensures IsOrder(ASCENDING) && IsTotal(ASCENDING)
  {
  }

  lemma SortedRises(values: seq<real>)
    ensures Rising(Sort(values, ASCENDING)) && |Sort(values, ASCENDING)| == |values|
    ensures forall x :: x in values <==> x in Sort(values, ASCENDING)
  {
    AscendingIsOrder();
    SortOrders(values, ASCENDING);
    SortPermutes(values, ASCENDING);
    SameElements(values, Sort(values, ASCENDING));
    assert forall x, y :: ASCENDING(x, y) <==> x < y;
  }

  lemma BetweenNeighbours(s: seq<real>, pos: real)
    requires s != [] && Rising(s) && 0.0 <= pos <= (|s| - 1) as real
    ensures s[pos.Floor] <= Between(s, pos)
    ensures pos.Floor + 1 < |s| ==> Between(s, pos) <= s[pos.Floor + 1]
    ensures Between(s, pos) <= Last(s)
  {
    hide Times;
    var lo, hi := pos.Floor, Ceil(pos);
    if lo != hi {
      TimesGrows(pos - lo as real, 1.0, s[hi] - s[lo]);
    }
  }

  lemma BetweenMonotone(s: seq<real>, p: real, r: real)
    requires s != [] && Rising(s) && 0.0 <= p <= r <= (|s| - 1) as real
    ensures Between(s, p) <= Between(s, r)
  {
    hide Between;
    if p.Floor < r.Floor {
      BetweenNeighbours(s, p);
      BetweenNeighbours(s, r);
      assert s[p.Floor + 1] <= s[r.Floor];
    } else {
      BetweenSameCell(s, p, r);
    }
  }

  lemma BetweenSameCell(s: seq<real>, p: real, r: real)
    requires s != [] && Rising(s) && 0.0 <= p <= r <= (|s| - 1) as real && p.Floor == r.Floor
    ensures Between(s, p) <= Between(s, r)
  {
    hide Times;
    var lo := p.Floor;
    if r != lo as real {
      TimesGrows(p - lo as real, r - lo as real, s[lo + 1] - s[lo]);
    }
  }

  /** Weighted mean of two values. */
  function Mix(f: real, a: real, b: real): real { (1.0 - f) * a + f * b }

  /** At rank k + f the percentile lies the fraction f of the way from the k-th to the next value in order. */
  lemma PercentileInterpolates(values: seq<real>, q: real, k: nat, f: real)
    requires |values| > 1 && 0.0 <= q <= 1.0 && 0.0 <= f < 1.0
    requires Times(q, (|values| - 1) as real) == k as real + f
    ensures var s := Sort(values, ASCENDING);
            && |s| == |values| && k < |s| && Rising(s) && multiset(s) == multiset(values)
            && (f == 0.0 ==> Percentile(values, q) == s[k])
            && (f > 0.0 ==> k + 1 < |s| && Percentile(values, q) == Mix(f, s[k], s[k + 1]))
  {
    SortedRises(values);
    SortPermutes(values, ASCENDING);
    RankIs(q, |values|, k as real + f);
    hide Sort, Between, Rank, Times, Mix;
    BetweenInterpolates(Sort(values, ASCENDING), k, f);
  }

  lemma RankIs(q: real, n: nat, pos: real)
    requires n >= 1 && 0.0 <= q <= 1.0 && pos == Times(q, (n - 1) as real)
    ensures Rank(Clamped(q), n) == pos
  {
  }

  lemma BetweenInterpolates(s: seq<real>, k: nat, f: real)
    requires s != [] && 0.0 <= f < 1.0 && k as real + f <= (|s| - 1) as real
    ensures k < |s| && (f == 0.0 ==> Between(s, k as real + f) == s[k])
    ensures f > 0.0 ==> k + 1 < |s| && Between(s, k as real + f) == Mix(f, s[k], s[k + 1])
  {
    hide Ceil, Times, Mix;
    FloorOf(k as real + f, k, f);
    if f > 0.0 {
      Blend(f, s[k], s[k + 1]);
    }
  }

  lemma FloorOf(pos: real, k: nat, f: real)
    requires pos == k as real + f && 0.0 <= f < 1.0
    ensures pos.Floor == k && Ceil(pos) == if f == 0.0 then k else k + 1
  {
  }

  lemma Blend(f: real, a: real, b: real)
    ensures a + Times(f, b - a) == Mix(f, a, b)
  {
  }

  /** No lower than the least value, no higher than the greatest. */
  lemma PercentileInRange(values: seq<real>, q: real, least: real, greatest: real)
    requires values != [] && forall x | x in values :: least <= x <= greatest
    ensures least <= Percentile(values, q) <= greatest
  {
    hide Between, Rank;
    SortedRises(values);
    var s := Sort(values, ASCENDING);
    assert forall i | 0 <= i < |s| :: s[i] in s;
    if |s| > 1 {
      BetweenNeighbours(s, Rank(Clamped(q), |s|));
    }
  }

  lemma PercentileMonotone(values: seq<real>, q: real, r: real)
    requires q <= r
    ensures Percentile(values, q) <= Percentile(values, r)
  {
    hide Between, Rank, Times;
    SortedRises(values);
    if |values| > 1 {
      var s := Sort(values, ASCENDING);
      var a, b := Clamped(q), Clamped(r);
      TimesGrows(a, b, (|s| - 1) as real);
      BetweenMonotone(s, Rank(a, |s|), Rank(b, |s|));
    }
  }

  lemma PercentileForgetsOrder(values: seq<real>, shuffled: seq<real>, q: real)
    requires multiset(values) == multiset(shuffled)
    ensures Percentile(values, q) == Percentile(shuffled, q)
  {
    assert |values| == |multiset(values)| == |shuffled|;
    AscendingIsOrder();
    SortForgetsOrder(values, shuffled, ASCENDING);
  }

  /** How many values lie strictly above t. */
  function CountAbove(s: seq<real>, t: real): nat {
    if s == [] then 0 else CountAbove(Front(s), t) + if Last(s) > t then 1 else 0
  }

  lemma CountAppend(s: seq<real>, x: real, t: real)
    ensures CountAbove(s + [x], t) == CountAbove(s, t) + if x > t then 1 else 0
  {
    assert Front(s + [x]) == s;
  }

  lemma {:induction false} CountInsert(s: seq<real>, x: real, t: real)
    ensures CountAbove(Insert(s, x, ASCENDING), t) == CountAbove(s, t) + if x > t then 1 else 0
  {
    CountAppend(s, x, t);
    if s != [] {
      CountInsert(Front(s), x, t);
      CountAppend(Insert(Front(s), x, ASCENDING), Last(s), t);
    }
  }

  lemma {:induction false} CountSort(s: seq<real>, t: real)
    ensures CountAbove(Sort(s, ASCENDING), t) == CountAbove(s, t)
  {
    if s != [] {
      CountSort(Front(s), t);
      CountInsert(Sort(Front(s), ASCENDING), Last(s), t);
    }
  }

  lemma {:induction false} CountBeyond(s: seq<real>, k: nat, t: real)
    requires k <= |s| && forall i | 0 <= i < k :: s[i] <= t
    ensures CountAbove(s, t) <= |s| - k
  {
    if s != [] {
      CountBeyond(Front(s), if k == |s| then k - 1 else k, t);
    }
  }

  lemma FewAboveBetween(s: seq<real>, pos: real)
    requires s != [] && Rising(s) && 0.0 <= pos <= (|s| - 1) as real
    ensures CountAbove(s, Between(s, pos)) <= |s| - 1 - pos.Floor
  {
    hide Between;
    BetweenNeighbours(s, pos);
    CountBeyond(s, pos.Floor + 1, Between(s, pos));
  }

  /** Of n values, at most those beyond rank floor(q(n-1)) exceed the q-th percentile. */
  lemma {:induction false} FewAbovePercentile(values: seq<real>, q: real)
    requires values != [] && 0.0 <= q <= 1.0
    ensures CountAbove(values, Percentile(values, q)) <= |values| - 1 - (q * (|values| - 1) as real).Floor
  {
    hide Between, Rank, Sort;
    SortedRises(values);
    CountSort(values, Percentile(values, q));
    var s := Sort(values, ASCENDING);
    if |s| == 1 {
      CountBeyond(s, 1, s[0]);
    } else {
      FewAboveBetween(s, Rank(q, |s|));
    }
  }
}
