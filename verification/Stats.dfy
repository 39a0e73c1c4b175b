/** The receiver's streaming loss accumulator (internal/stream/stats.go). */
module Stats {
  import opened Prelude

  const MAX_ACCEPTABLE_GAP: int := 0x10_0000
  const MAX_SEEN_ENTRIES: int := 0x4_0000

  // ------------------------------------------------------------------
  // The algorithm, one packet at a time
  // ------------------------------------------------------------------

  datatype Bursts = Bursts(one: nat, two: nat, three9: nat, ten99: nat, hundredUp: nat, max: nat)

  const NO_BURSTS := Bursts(0, 0, 0, 0, 0, 0)

  datatype Counters = Counters(
    recv: nat,
    lost: nat,
    outOfOrder: nat,
    duplicates: nat,
    expectedSeq: nat,
    maxSeq: nat,
    seenAny: bool,
    seen: set<Uint64>,
    bursts: Bursts)

  const FRESH_COUNTERS := Counters(0, 0, 0, 0, 0, 0, false, {}, NO_BURSTS)

  function RecordBurst(b: Bursts, n: int): Bursts {
    if n <= 0 then b else
      var c :=
        if n == 1 then b.(one := b.one + 1)
        else if n == 2 then b.(two := b.two + 1)
        else if n <= 9 then b.(three9 := b.three9 + 1)
        else if n <= 99 then b.(ten99 := b.ten99 + 1)
        else b.(hundredUp := b.hundredUp + 1);
      if n > c.max then c.(max := n) else c
  }

  predicate Rejected(c: Counters, s: Uint64) {
    s > MAX_INT64
    || (c.seenAny && s > c.expectedSeq && s - c.expectedSeq > MAX_ACCEPTABLE_GAP)
  }

  /** True when the packet is counted as received (neither rejected nor a known duplicate). */
  predicate Counted(c: Counters, s: Uint64) {
    !Rejected(c, s) && s !in c.seen
  }

  /** Moves the expected sequence number past s, or takes one loss back when s arrives late. */
  function Advanced(c: Counters, s: Uint64): Counters {
    if !c.seenAny then
      c.(seenAny := true, maxSeq := s, expectedSeq := s + 1,
         bursts := RecordBurst(c.bursts, s), lost := c.lost + s)
    else if s >= c.expectedSeq then
      c.(expectedSeq := s + 1, maxSeq := Max(c.maxSeq, s),
         bursts := RecordBurst(c.bursts, s - c.expectedSeq), lost := c.lost + (s - c.expectedSeq))
    else
      c.(outOfOrder := c.outOfOrder + 1, lost := if c.lost > 0 then c.lost - 1 else 0)
  }

  function Observed(c: Counters, s: Uint64): Counters {
    if Rejected(c, s) then c
    else if s in c.seen then c.(duplicates := c.duplicates + 1)
    else
      Advanced(
        c.(recv := c.recv + 1,
           seen := if |c.seen| < MAX_SEEN_ENTRIES then c.seen + {s} else c.seen),
        s)
  }

  /** The counters after a whole packet log. */
  function Run(log: seq<Uint64>): Counters {
    if log == [] then FRESH_COUNTERS else Observed(Run(Front(log)), Last(log))
  }

  // ------------------------------------------------------------------
  // What the numbers are supposed to mean, stated without the algorithm
  // ------------------------------------------------------------------

  /** The largest element. */
  function Top(a: seq<Uint64>): (m: Uint64)
    requires a != []
    ensures m in a
    ensures forall x | x in a :: x <= m
  {
    if |a| == 1 then a[0]
    else
      assert a == Front(a) + [Last(a)];
      if Last(a) > Top(Front(a)) then Last(a) else Top(Front(a))
  }

  /** One past the highest sequence number. */
  function Limit(a: seq<Uint64>): nat {
    if a == [] then 0 else Top(a) + 1
  }

  predicate Admissible(a: seq<Uint64>, s: Uint64) {
    s <= MAX_INT64 && (a == [] || s <= Limit(a) + MAX_ACCEPTABLE_GAP)
  }

  /** The packets that get past the two defensive gates. */
  function Accepted(log: seq<Uint64>): seq<Uint64> {
    if log == [] then []
    else
      var a := Accepted(Front(log));
      if Admissible(a, Last(log)) then a + [Last(log)] else a
  }

  /** The sequence numbers below the limit that never arrived. */
  function Missing(a: seq<Uint64>): set<int> {
    Range(Limit(a)) - Elems(a)
  }

  /** The duplicate map: the first MAX_SEEN_ENTRIES distinct sequence numbers. */
  function Remembered(a: seq<Uint64>): set<Uint64> {
    if a == [] then {}
    else
      var r := Remembered(Front(a));
      if |r| < MAX_SEEN_ENTRIES then r + {Last(a)} else r
  }

  /** Packets that arrived before but were no longer remembered. */
  function Forgotten(a: seq<Uint64>): nat {
    if a == [] then 0
    else
      Forgotten(Front(a)) + (if Last(a) in Front(a) && Last(a) !in Remembered(Front(a)) then 1 else 0)
  }

  /** The jump over each newly opened hole, oldest first. */
  function Gaps(a: seq<Uint64>): seq<int> {
    if a == [] then []
    else
      var g := Gaps(Front(a));
      if Last(a) > Limit(Front(a)) then g + [Last(a) - Limit(Front(a))] else g
  }

  /** How many of the lengths lie between lo and hi. */
  function CountBetween(g: seq<int>, lo: int, hi: int): nat {
    if g == [] then 0
    else
      CountBetween(Front(g), lo, hi) + (if lo <= Last(g) <= hi then 1 else 0)
  }

  function Longest(g: seq<int>): nat {
    if g == [] then 0 else Max(Longest(Front(g)), Last(g))
  }

  // ------------------------------------------------------------------
  // Small facts
  // ------------------------------------------------------------------

  lemma AppendFrontLast<T>(s: seq<T>, x: T)
    ensures Front(s + [x]) == s && Last(s + [x]) == x
  {
  }

  lemma TopAppend(a: seq<Uint64>, s: Uint64)
    ensures Top(a + [s]) == if a == [] || s > Top(a) then s else Top(a)
    ensures Limit(a + [s]) == Max(Limit(a), s + 1)
  {
    AppendFrontLast(a, s);
  }

  lemma {:induction false} MissingCard(a: seq<Uint64>)
    ensures |Missing(a)| == Limit(a) - |Elems(a)|
  {
    SubsetCard<int>(Elems(a), Range(Limit(a)));
  }

  lemma {:induction false} RememberedIsCapped(a: seq<Uint64>)
    ensures Remembered(a) <= Elems(a)
    ensures |Remembered(a)| <= MAX_SEEN_ENTRIES
    ensures Remembered(a) == Elems(a) || |Remembered(a)| == MAX_SEEN_ENTRIES
  {
    if a != [] {
      RememberedIsCapped(Front(a));
      assert a == Front(a) + [Last(a)];
      ElemsAppend(Front(a), Last(a));
    }
  }

  // ------------------------------------------------------------------
  // Every input: what the counters mean, past the duplicate cap too
  // ------------------------------------------------------------------

  /** The reference quantities of an accepted packet list, gathered as numbers. */
  datatype Ledger = Ledger(length: nat, limit: nat, distinct: nat, forgotten: nat, remembered: set<Uint64>)

  function LedgerOf(a: seq<Uint64>): Ledger {
    Ledger(|a|, Limit(a), |Elems(a)|, Forgotten(a), Remembered(a))
  }

  /** The ledger after one more accepted packet; known tells whether it had arrived before. */
  function Entered(l: Ledger, s: Uint64, known: bool): Ledger {
    Ledger(
      l.length + 1,
      Max(l.limit, s + 1),
      if known then l.distinct else l.distinct + 1,
      if known && s !in l.remembered then l.forgotten + 1 else l.forgotten,
      if |l.remembered| < MAX_SEEN_ENTRIES then l.remembered + {s} else l.remembered)
  }

  /** The state an accepted packet list leads to. */
  ghost predicate Means(c: Counters, l: Ledger) {
    && c.seenAny == (l.length != 0)
    && c.expectedSeq == l.limit
    && (c.seenAny ==> c.maxSeq + 1 == l.limit)
    && c.seen == l.remembered
    && c.recv == l.distinct + l.forgotten
    && c.recv + c.duplicates == l.length
    && l.distinct + c.lost <= l.limit <= c.recv + c.lost
  }

  lemma LedgerStep(a: seq<Uint64>, s: Uint64)
    ensures LedgerOf(a + [s]) == Entered(LedgerOf(a), s, s in a)
  {
    AppendFrontLast(a, s);
    TopAppend(a, s);
    ElemsAppend(a, s);
  }

  /** What every ledger guarantees about the packet that is about to be entered. */
  ghost predicate Enterable(l: Ledger, s: Uint64, known: bool) {
    && (s in l.remembered ==> known)
    && (known ==> s < l.limit)
    && (s < l.limit && !known ==> l.distinct < l.limit)
    && (l.length == 0 <==> l.limit == 0)
  }

  lemma {:induction false} LedgerBounds(a: seq<Uint64>, s: Uint64)
    ensures |Missing(a)| == Limit(a) - |Elems(a)|
    ensures Enterable(LedgerOf(a), s, s in a)
  {
    MissingCard(a);
    RememberedIsCapped(a);
    if s < Limit(a) && s !in a {
      assert s in Missing(a);
    }
  }

  lemma ObservedMeans(c: Counters, l: Ledger, s: Uint64, known: bool)
    requires Means(c, l) && !Rejected(c, s)
    requires Enterable(l, s, known)
    ensures Means(Observed(c, s), Entered(l, s, known))
  {
    if s in c.seen {
      assert l.remembered + {s} == l.remembered;
    }
  }

  lemma {:induction false} RunMeaning(log: seq<Uint64>)
    ensures Means(Run(log), LedgerOf(Accepted(log)))
  {
    if log != [] {
      RunMeaning(Front(log));
      var a := Accepted(Front(log));
      var s := Last(log);
      LedgerBounds(a, s);
      assert Rejected(Run(Front(log)), s) <==> !Admissible(a, s);
      if Admissible(a, s) {
        ObservedMeans(Run(Front(log)), LedgerOf(a), s, s in a);
        LedgerStep(a, s);
      }
    }
  }

  // ------------------------------------------------------------------
  // The published numbers
  // ------------------------------------------------------------------

  lemma {:induction false} NothingForgottenBelowCap(a: seq<Uint64>)
    requires |Elems(a)| <= MAX_SEEN_ENTRIES
    ensures Remembered(a) == Elems(a)
    ensures Forgotten(a) == 0
  {
    RememberedIsCapped(a);
    SubsetCard(Remembered(a), Elems(a));
    if a != [] {
      assert a == Front(a) + [Last(a)];
      ElemsAppend(Front(a), Last(a));
      SubsetCard(Elems(Front(a)), Elems(a));
      NothingForgottenBelowCap(Front(a));
    }
  }

  /** The packet at position j is new, or is recognised as a repeat. */
  ghost predicate Recognised(a: seq<Uint64>, j: nat)
    requires j < |a|
  {
    a[j] in a[..j] ==> a[j] in Remembered(a[..j])
  }

  ghost predicate AllRecognised(a: seq<Uint64>) { forall j | 0 <= j < |a| :: Recognised(a, j) }

  lemma {:induction false} ForgottenIff(a: seq<Uint64>)
    ensures Forgotten(a) == 0 <==> AllRecognised(a)
  {
    if a != [] {
      var f, n := Front(a), |a| - 1;
      ForgottenIff(f);
      forall j | 0 <= j < n
        ensures Recognised(a, j) <==> Recognised(f, j)
      {
        assert f[..j] == a[..j];
      }
      assert a[..n] == f;
      assert Recognised(a, n) <==> Forgotten(a) == Forgotten(f);
      assert AllRecognised(a) <==> AllRecognised(f) && Recognised(a, n);
    }
  }

  /** A packet is counted, and timed for the jitter, exactly when it raises Recv: when it passes the gates and
      is not a remembered repeat, which below the cap means that it has not arrived before. */
  lemma {:induction false} CountedMeaning(log: seq<Uint64>, s: Uint64)
    ensures Counted(Run(log), s) <==> Run(log + [s]).recv == Run(log).recv + 1
    ensures Counted(Run(log), s) <==> Admissible(Accepted(log), s) && s !in Remembered(Accepted(log))
    ensures |Elems(Accepted(log))| <= MAX_SEEN_ENTRIES ==>
              (Counted(Run(log), s) <==> Admissible(Accepted(log), s) && s !in Accepted(log))
  {
    AppendFrontLast(log, s);
    RunMeaning(log);
    LedgerBounds(Accepted(log), s);
    if |Elems(Accepted(log))| <= MAX_SEEN_ENTRIES {
      NothingForgottenBelowCap(Accepted(log));
    }
  }

  /** Below the duplicate cap the counters are set cardinalities, whatever the order of arrival. */
  lemma {:induction false} ExactBelowCap(log: seq<Uint64>)
    requires |Elems(Accepted(log))| <= MAX_SEEN_ENTRIES
    ensures var c, a := Run(log), Accepted(log);
            && c.recv == |Elems(a)|
            && c.lost == |Missing(a)|
            && c.duplicates == |a| - |Elems(a)|
            && c.recv + c.lost == Limit(a)
            && (a != [] ==> c.maxSeq == Top(a) && c.recv + c.lost == c.maxSeq + 1)
  {
    RunMeaning(log);
    NothingForgottenBelowCap(Accepted(log));
    MissingCard(Accepted(log));
  }

  /** Recv is the true number of distinct packets exactly when no unremembered packet repeats. */
  lemma {:induction false} RecvExactIff(log: seq<Uint64>)
    ensures Run(log).recv == |Elems(Accepted(log))| <==> AllRecognised(Accepted(log))
    ensures AllRecognised(Accepted(log)) ==> Run(log).lost == |Missing(Accepted(log))|
  {
    RunMeaning(log);
    ForgottenIff(Accepted(log));
    MissingCard(Accepted(log));
  }

  /** The sequence numbers below n, in order. */
  function Counting(n: nat): seq<Uint64>
    requires n <= MAX_INT64
  {
    if n == 0 then [] else Counting(n - 1) + [n - 1]
  }

  lemma {:induction false} CountingMeaning(n: nat)
    requires n <= MAX_INT64
    ensures var a := Counting(n);
            |a| == n && (forall x: Uint64 :: x in a <==> x < n) && Limit(a) == n && Accepted(a) == a
  {
    hide Limit, Accepted;
    if n > 0 {
      CountingMeaning(n - 1);
      AcceptedAppend(Counting(n - 1), n - 1);
      TopAppend(Counting(n - 1), n - 1);
    } else {
      NothingYet();
    }
  }

  lemma NothingYet()
    ensures Accepted([]) == [] && Limit([]) == 0
  {
  }

  lemma AcceptedAppend(a: seq<Uint64>, s: Uint64)
    requires Accepted(a) == a && s <= MAX_INT64 && s <= Limit(a) + MAX_ACCEPTABLE_GAP
    ensures Accepted(a + [s]) == a + [s]
  {
    AppendFrontLast(a, s);
  }

  lemma {:induction false} CountingIsRemembered(n: nat)
    requires n <= MAX_SEEN_ENTRIES
    ensures var a := Counting(n);
            Forgotten(a) == 0 && |Remembered(a)| == n && forall x: Uint64 :: x in Remembered(a) <==> x < n
  {
    hide Counting, Forgotten, Remembered, Limit, Accepted;
    CountingMeaning(n);
    var a := Counting(n);
    ElemsAtMostLength(a);
    NothingForgottenBelowCap(a);
    MissingCard(a);
    assert Missing(a) == {};
  }

  /** Past the cap a repeat can be counted as new: one packet more received than arrived. */
  lemma {:induction false} RepeatPastCapCountsAgain(n: nat)
    requires n == MAX_SEEN_ENTRIES
    ensures var log := Counting(n + 1) + [n]; Run(log).recv == |Elems(Accepted(log))| + 1
  {
    hide Limit, Run, Accepted, Forgotten, Remembered;
    CountingIsRemembered(n);
    CountingMeaning(n);
    CountingMeaning(n + 1);
    var a := Counting(n + 1);
    AcceptedAppend(a, n);
    RunMeaning(a + [n]);
    ForgottenAppend(Counting(n), n);
    ForgottenAppend(a, n);
    assert Elems(a + [n]) == Elems(a);
  }

  lemma ForgottenAppend(a: seq<Uint64>, s: Uint64)
    ensures Forgotten(a + [s]) == Forgotten(a) + (if s in a && s !in Remembered(a) then 1 else 0)
    ensures |Remembered(a)| >= MAX_SEEN_ENTRIES ==> Remembered(a + [s]) == Remembered(a)
  {
    AppendFrontLast(a, s);
  }

  /** For every log at all: bounded memory, honest bounds on loss, no wrap-around. */
  lemma {:induction false} AlwaysBounded(log: seq<Uint64>)
    ensures var c, a := Run(log), Accepted(log);
            && |c.seen| <= MAX_SEEN_ENTRIES && c.seen <= Elems(a)
            && c.lost <= |Missing(a)|
            && c.recv + c.lost >= c.expectedSeq
            && |Elems(a)| <= c.recv
            && (c.seenAny ==> c.lost < c.expectedSeq <= MAX_INT64 + 1 && c.maxSeq <= MAX_INT64)
            && (!c.seenAny ==> c.recv == c.lost == c.expectedSeq == 0)
  {
    RunMeaning(log);
    var a := Accepted(log);
    MissingCard(a);
    RememberedIsCapped(a);
    AcceptedFitInt64(log);
    if a != [] {
      assert a[0] in Elems(a);
    }
  }

  lemma {:induction false} AcceptedFitInt64(log: seq<Uint64>)
    ensures Limit(Accepted(log)) <= MAX_INT64 + 1
  {
    if log != [] {
      AcceptedFitInt64(Front(log));
      if Admissible(Accepted(Front(log)), Last(log)) {
        TopAppend(Accepted(Front(log)), Last(log));
      }
    }
  }

  /** Rolling back a loss never hits the zero guard unless a packet has been miscounted. */
  lemma {:induction false} RollbackGuardHolds(log: seq<Uint64>, s: Uint64)
    requires Counted(Run(log), s) && s < Run(log).expectedSeq
    requires Forgotten(Accepted(log) + [s]) == 0
    ensures Run(log).lost > 0
  {
    var a := Accepted(log);
    RunMeaning(log);
    LedgerStep(a, s);
    LedgerBounds(a, s);
  }

  ghost predicate NothingRejected(log: seq<Uint64>) { Accepted(log) == log }

  /** The published counters do not depend on the order in which the network delivered the packets. */
  lemma {:induction false} OrderDoesNotMatter(log: seq<Uint64>, shuffled: seq<Uint64>)
    requires multiset(log) == multiset(shuffled)
    requires NothingRejected(log) && NothingRejected(shuffled)
    requires |Elems(log)| <= MAX_SEEN_ENTRIES
    ensures var c, d := Run(log), Run(shuffled);
            && c.recv == d.recv && c.lost == d.lost && c.duplicates == d.duplicates && c.maxSeq == d.maxSeq
  {
    assert forall x :: x in log <==> x in multiset(log);
    assert forall x :: x in shuffled <==> x in multiset(shuffled);
    assert Elems(log) == Elems(shuffled);
    assert |log| == |multiset(log)| == |shuffled|;
    ExactBelowCap(log);
    ExactBelowCap(shuffled);
    if log != [] {
      assert Top(log) in shuffled && Top(shuffled) in log;
    }
  }

  // ------------------------------------------------------------------
  // The burst histogram
  // ------------------------------------------------------------------

  ghost predicate GapLengths(g: seq<int>) {
    forall n | n in g :: 1 <= n <= MAX_INT64
  }

  ghost predicate IsHistogram(b: Bursts, g: seq<int>) {
    && b.one == CountBetween(g, 1, 1)
    && b.two == CountBetween(g, 2, 2)
    && b.three9 == CountBetween(g, 3, 9)
    && b.ten99 == CountBetween(g, 10, 99)
    && b.hundredUp == CountBetween(g, 100, MAX_INT64)
    && b.max == Longest(g)
  }

  lemma RecordBurstStep(b: Bursts, g: seq<int>, n: int)
    requires IsHistogram(b, g) && 1 <= n <= MAX_INT64
    ensures IsHistogram(RecordBurst(b, n), g + [n])
  {
    AppendFrontLast(g, n);
  }

  /** How the burst list relates to the counters. */
  ghost predicate BurstsMean(c: Counters, g: seq<int>, forgotten: nat) {
    && GapLengths(g)
    && IsHistogram(c.bursts, g)
    && |g| + c.outOfOrder <= c.recv
    && Sum(g) <= c.lost + c.outOfOrder
    && (forgotten == 0 ==> Sum(g) == c.lost + c.outOfOrder)
  }

  /** The histogram follows the list of holes. */
  lemma HistogramStep(c: Counters, g: seq<int>, s: Uint64)
    requires GapLengths(g) && IsHistogram(c.bursts, g) && !Rejected(c, s)
    requires c.seenAny || c.expectedSeq == 0
    requires s in c.seen ==> s < c.expectedSeq
    ensures var h := if s > c.expectedSeq then g + [s - c.expectedSeq] else g;
            GapLengths(h) && IsHistogram(Observed(c, s).bursts, h)
  {
    if s > c.expectedSeq {
      RecordBurstStep(c.bursts, g, s - c.expectedSeq);
      assert Observed(c, s).bursts == RecordBurst(c.bursts, s - c.expectedSeq);
    } else {
      assert Observed(c, s).bursts == c.bursts;
    }
  }

  /** So do its length and its sum. */
  lemma BurstSumStep(c: Counters, l: Ledger, n: nat, sum: int, s: Uint64, known: bool)
    requires Means(c, l) && !Rejected(c, s) && Enterable(l, s, known)
    requires n + c.outOfOrder <= c.recv && sum <= c.lost + c.outOfOrder
    requires l.forgotten == 0 ==> sum == c.lost + c.outOfOrder
    ensures var d, m := Observed(c, s), Entered(l, s, known);
            var n', sum' := if s > l.limit then n + 1 else n, if s > l.limit then sum + (s - l.limit) else sum;
            && n' + d.outOfOrder <= d.recv && sum' <= d.lost + d.outOfOrder
            && (m.forgotten == 0 ==> sum' == d.lost + d.outOfOrder)
  {
  }

  lemma BurstStep(c: Counters, l: Ledger, g: seq<int>, s: Uint64, known: bool)
    requires Means(c, l) && BurstsMean(c, g, l.forgotten) && !Rejected(c, s)
    requires Enterable(l, s, known)
    ensures var h := if s > l.limit then g + [s - l.limit] else g;
            BurstsMean(Observed(c, s), h, Entered(l, s, known).forgotten)
  {
    hide Observed, RecordBurst, IsHistogram, Entered;
    HistogramStep(c, g, s);
    BurstSumStep(c, l, |g|, Sum(g), s, known);
    if s > l.limit {
      AppendFrontLast(g, s - l.limit);
    }
  }

  lemma GapsStep(a: seq<Uint64>, s: Uint64)
    ensures Gaps(a + [s]) == if s > Limit(a) then Gaps(a) + [s - Limit(a)] else Gaps(a)
  {
    AppendFrontLast(a, s);
  }

  lemma {:induction false} BurstMeaning(log: seq<Uint64>)
    ensures BurstsMean(Run(log), Gaps(Accepted(log)), Forgotten(Accepted(log)))
  {
    if log != [] {
      BurstMeaning(Front(log));
      RunMeaning(Front(log));
      var a := Accepted(Front(log));
      var s := Last(log);
      LedgerBounds(a, s);
      assert Rejected(Run(Front(log)), s) <==> !Admissible(a, s);
      if Admissible(a, s) {
        BurstStep(Run(Front(log)), LedgerOf(a), Gaps(a), s, s in a);
        LedgerStep(a, s);
        GapsStep(a, s);
      }
    }
  }

  lemma ProductGrows(m: nat, m': nat, k: nat, k': nat, n: nat)
    requires m' >= m && m' >= n && (k' == k || k' == k + 1)
    ensures m' * k' >= m * k + (if k' == k then 0 else n)
  {
    assert m' * k >= m * k;
    assert m' * (k + 1) == m' * k + m';
  }

  lemma {:induction false} HistogramBounds(g: seq<int>, b: Bursts)
    requires GapLengths(g) && IsHistogram(b, g)
    ensures b.one + b.two + b.three9 + b.ten99 + b.hundredUp == |g|
    ensures b.one + 2 * b.two + 3 * b.three9 + 10 * b.ten99 + 100 * b.hundredUp <= Sum(g)
    ensures Sum(g) <= b.one + 2 * b.two + 9 * b.three9 + 99 * b.ten99 + b.max * b.hundredUp
  {
    if g != [] {
      var f := Front(g);
      assert forall n | n in f :: n in g;
      assert Last(g) in g;
      var c := Bursts(CountBetween(f, 1, 1), CountBetween(f, 2, 2), CountBetween(f, 3, 9),
                      CountBetween(f, 10, 99), CountBetween(f, 100, MAX_INT64), Longest(f));
      HistogramBounds(f, c);
      ProductGrows(c.max, b.max, c.hundredUp, b.hundredUp, Last(g));
    }
  }

  /** Below the cap the histogram accounts for every packet ever counted lost, within its bucket widths. */
  lemma {:induction false} BurstsAccountForLoss(log: seq<Uint64>)
    requires |Elems(Accepted(log))| <= MAX_SEEN_ENTRIES
    ensures var c, g := Run(log), Gaps(Accepted(log));
            var b := c.bursts;
            && Sum(g) == c.lost + c.outOfOrder
            && b.max == Longest(g)
            && b.one + 2 * b.two + 3 * b.three9 + 10 * b.ten99 + 100 * b.hundredUp <= c.lost + c.outOfOrder
            && c.lost + c.outOfOrder <= b.one + 2 * b.two + 9 * b.three9 + 99 * b.ten99 + b.max * b.hundredUp
            && b.one + b.two + b.three9 + b.ten99 + b.hundredUp <= c.recv - c.outOfOrder
  {
    BurstMeaning(log);
    NothingForgottenBelowCap(Accepted(log));
    HistogramBounds(Gaps(Accepted(log)), Run(log).bursts);
  }
}
