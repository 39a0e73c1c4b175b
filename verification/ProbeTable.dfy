/** What the two hop probers share: a map of unsettled probes and the per-hop counters
    (internal/probe/probe_unix.go, probe_tcp_unix.go, probe.go). Each function is one
    lock-held region. */
module ProbeTable {
  import opened Prelude
  import opened HopStats

  datatype Entry = Entry(ttl: int, sentAt: int)

  datatype Table = Table(inflight: map<Uint16, Entry>, hops: seq<Hop>, terminus: int)

  const BASE_LOSS_TIMEOUT: int := 2_000_000_000

  function LossTimeout(interval: int): int {
    if 2 * interval > BASE_LOSS_TIMEOUT then 2 * interval else BASE_LOSS_TIMEOUT
  }

  /** Two seconds or two intervals, whichever is longer. */
  lemma LossTimeoutMeaning(interval: int)
    ensures LossTimeout(interval) >= 2_000_000_000 && LossTimeout(interval) >= interval + interval
    ensures LossTimeout(interval) == 2_000_000_000 || LossTimeout(interval) == interval + interval
  {
  }

  // ------------------------------------------------------------------
  // The critical sections
  // ------------------------------------------------------------------

  function Sent(h: Hop, n: int): Hop { h.(sent := h.sent + n, inflight := h.inflight + n) }

  function Unsettle(h: Hop): Hop { h.(inflight := h.inflight - 1) }

  /** A probe goes out. */
  function Register(t: Table, key: Uint16, ttl: int, now: int): Table
    requires 1 <= ttl <= |t.hops|
  {
    t.(inflight := t.inflight[key := Entry(ttl, now)],
       hops := t.hops[ttl - 1 := Sent(t.hops[ttl - 1], 1)])
  }

  function Lower(terminus: int, ttl: int): int {
    if terminus == 0 || ttl < terminus then ttl else terminus
  }

  /** Settles the probe at key as a reply from hop ttl. */
  function SettleAs(t: Table, key: Uint16, ttl: int, src: Option<nat>, rtt: real, echo: bool): Table {
    var u := t.(inflight := t.inflight - {key});
    if ttl < 1 || ttl > |t.hops| then u
    else
      u.(hops := t.hops[ttl - 1 := Replied(Unsettle(t.hops[ttl - 1]), src, rtt, echo)],
         terminus := if echo then Lower(t.terminus, ttl) else t.terminus)
  }

  /** A duration in nanoseconds as milliseconds. */
  function Millis(d: int): real { d as real / 1_000_000.0 }

  lemma MillisMeaning(d: int, k: int)
    ensures Millis(d) * 1_000_000.0 == d as real
    ensures Millis(k * 1_000_000) == k as real
  {
  }

  /** The receive loop attributes and times a reply by what is stored with the probe. */
  function Reply(t: Table, key: Uint16, src: Option<nat>, now: int, echo: bool): Table {
    if key !in t.inflight then t
    else SettleAs(t, key, t.inflight[key].ttl, src, Millis(now - t.inflight[key].sentAt), echo)
  }

  /** The TCP dialer saw the destination; it names its own ttl. */
  function RecordTerminus(t: Table, key: Uint16, ttl: int, src: Option<nat>, rtt: real): Table {
    if key !in t.inflight then t else SettleAs(t, key, ttl, src, rtt, true)
  }

  /** The TCP dialer never got onto the wire; it names its own ttl. */
  function Rollback(t: Table, key: Uint16, ttl: int): Table {
    if key !in t.inflight then t
    else
      var u := t.(inflight := t.inflight - {key});
      if ttl < 1 || ttl > |t.hops| then u
      else u.(hops := t.hops[ttl - 1 := Sent(t.hops[ttl - 1], -1)])
  }

  /** Ages out one probe, which then counts as lost. */
  function Expire(t: Table, key: Uint16): Table
    requires key in t.inflight
  {
    var ttl := t.inflight[key].ttl;
    var u := t.(inflight := t.inflight - {key});
    if ttl < 1 || ttl > |t.hops| then u
    else u.(hops := t.hops[ttl - 1 := Unsettle(t.hops[ttl - 1])])
  }

  // ------------------------------------------------------------------
  // The books
  // ------------------------------------------------------------------

  /** The unsettled probes of one hop. */
  function Live(inflight: map<Uint16, Entry>, ttl: int): set<Uint16> {
    set k | k in inflight && inflight[k].ttl == ttl
  }

  ghost predicate HopBalanced(h: Hop, live: nat) {
    h.inflight == live && h.recv + h.inflight <= h.sent
  }

  /** terminus names the lowest flagged hop, or is 0 when none is flagged. */
  ghost predicate TerminusIsLeast(t: Table) {
    && 0 <= t.terminus <= |t.hops|
    && (t.terminus > 0 ==> t.hops[t.terminus - 1].terminus)
    && (forall i | 0 <= i < |t.hops| :: t.hops[i].terminus ==> 0 < t.terminus <= i + 1)
  }

  ghost predicate Balanced(t: Table) {
    && (forall k | k in t.inflight :: 1 <= t.inflight[k].ttl <= |t.hops|)
    && (forall i | 0 <= i < |t.hops| :: HopBalanced(t.hops[i], |Live(t.inflight, i + 1)|))
    && TerminusIsLeast(t)
  }

  /** Nothing sent, nothing seen. */
  ghost predicate FreshTable(t: Table) {
    t.inflight == map[] && t.terminus == 0 && forall i | 0 <= i < |t.hops| :: t.hops[i] == FRESH_HOP
  }

  lemma FreshIsEmpty(t: Table)
    requires FreshTable(t)
    ensures t.inflight == map[] && t.terminus == 0
  {
  }

  lemma FreshIsBalanced(t: Table)
    requires FreshTable(t)
    ensures Balanced(t)
  {
    forall i | 0 <= i < |t.hops|
      ensures HopBalanced(t.hops[i], |Live(t.inflight, i + 1)|)
    {
      assert Live(t.inflight, i + 1) == {};
    }
  }

  /** Balanced books publish a possible loss percentage for every hop. */
  lemma BalancedLossInRange(t: Table, i: nat)
    requires Balanced(t) && i < |t.hops|
    ensures 0.0 <= LossPct(t.hops[i]) <= 100.0
  {
    assert HopBalanced(t.hops[i], |Live(t.inflight, i + 1)|);
    LossPctInRange(t.hops[i]);
  }

  lemma LiveAdd(m: map<Uint16, Entry>, key: Uint16, e: Entry, ttl: int)
    requires key !in m
    ensures |Live(m[key := e], ttl)| == |Live(m, ttl)| + (if e.ttl == ttl then 1 else 0)
  {
    assert Live(m[key := e], ttl) == if e.ttl == ttl then Live(m, ttl) + {key} else Live(m, ttl);
  }

  lemma LiveRemove(m: map<Uint16, Entry>, key: Uint16, ttl: int)
    requires key in m
    ensures |Live(m, ttl)| == |Live(m - {key}, ttl)| + (if m[key].ttl == ttl then 1 else 0)
  {
    assert Live(m, ttl) == if m[key].ttl == ttl then Live(m - {key}, ttl) + {key} else Live(m - {key}, ttl);
  }

  lemma RegisterFreshKeeps(t: Table, key: Uint16, ttl: int, now: int)
    requires Balanced(t) && 1 <= ttl <= |t.hops| && key !in t.inflight
    ensures Balanced(Register(t, key, ttl, now))
  {
    var u := Register(t, key, ttl, now);
    forall i | 0 <= i < |u.hops|
      ensures HopBalanced(u.hops[i], |Live(u.inflight, i + 1)|)
    {
      assert HopBalanced(t.hops[i], |Live(t.inflight, i + 1)|);
      LiveAdd(t.inflight, key, Entry(ttl, now), i + 1);
    }
  }

  lemma SettleOwnKeeps(t: Table, key: Uint16, src: Option<nat>, rtt: real, echo: bool)
    requires Balanced(t) && key in t.inflight
    ensures Balanced(SettleAs(t, key, t.inflight[key].ttl, src, rtt, echo))
  {
    var u := SettleAs(t, key, t.inflight[key].ttl, src, rtt, echo);
    forall i | 0 <= i < |u.hops|
      ensures HopBalanced(u.hops[i], |Live(u.inflight, i + 1)|)
    {
      assert HopBalanced(t.hops[i], |Live(t.inflight, i + 1)|);
      LiveRemove(t.inflight, key, i + 1);
    }
  }

  lemma RollbackOwnKeeps(t: Table, key: Uint16)
    requires Balanced(t) && key in t.inflight
    ensures Balanced(Rollback(t, key, t.inflight[key].ttl))
  {
    var u := Rollback(t, key, t.inflight[key].ttl);
    forall i | 0 <= i < |u.hops|
      ensures HopBalanced(u.hops[i], |Live(u.inflight, i + 1)|)
    {
      assert HopBalanced(t.hops[i], |Live(t.inflight, i + 1)|);
      LiveRemove(t.inflight, key, i + 1);
    }
  }

  /** Registering keeps the books exactly when the key is not live: an overwritten probe can never be
      settled, so its hop would stay one short for ever. */
  lemma RegisterKeepsIff(t: Table, key: Uint16, ttl: int, now: int)
    requires Balanced(t) && 1 <= ttl <= |t.hops|
    ensures Balanced(Register(t, key, ttl, now)) <==> key !in t.inflight
  {
    if key !in t.inflight {
      RegisterFreshKeeps(t, key, ttl, now);
    } else {
      var u := Register(t, key, ttl, now);
      var i := t.inflight[key].ttl - 1;
      var rest := t.inflight - {key};
      LiveRemove(t.inflight, key, i + 1);
      LiveAdd(rest, key, Entry(ttl, now), i + 1);
      assert u.inflight == rest[key := Entry(ttl, now)];
      assert HopBalanced(t.hops[i], |Live(t.inflight, i + 1)|);
      assert !HopBalanced(u.hops[i], |Live(u.inflight, i + 1)|);
    }
  }

  /** A dialer may name its own ttl exactly because the entry it finds is its own. */
  lemma OwnEntryIff(t: Table, key: Uint16, ttl: int, src: Option<nat>, rtt: real)
    requires Balanced(t) && key in t.inflight
    ensures Balanced(RecordTerminus(t, key, ttl, src, rtt)) <==> t.inflight[key].ttl == ttl
    ensures Balanced(Rollback(t, key, ttl)) <==> t.inflight[key].ttl == ttl
  {
    var i := t.inflight[key].ttl - 1;
    if i + 1 == ttl {
      SettleOwnKeeps(t, key, src, rtt, true);
      RollbackOwnKeeps(t, key);
    } else {
      LiveRemove(t.inflight, key, i + 1);
      assert HopBalanced(t.hops[i], |Live(t.inflight, i + 1)|);
      var u, v := RecordTerminus(t, key, ttl, src, rtt), Rollback(t, key, ttl);
      assert !HopBalanced(u.hops[i], |Live(u.inflight, i + 1)|);
      assert !HopBalanced(v.hops[i], |Live(v.inflight, i + 1)|);
    }
  }

  // ------------------------------------------------------------------
  // Ageing out, and the published table
  // ------------------------------------------------------------------

  function Stale(m: map<Uint16, Entry>, cutoff: int): set<Uint16> {
    set k | k in m && m[k].sentAt < cutoff
  }

  /** The table without the given probes, none of which was answered. */
  function ExpireAll(t: Table, keys: set<Uint16>): Table {
    t.(inflight := t.inflight - keys,
       hops := seq(|t.hops|, i requires 0 <= i < |t.hops| =>
                 t.hops[i].(inflight := t.hops[i].inflight - |Live(t.inflight, i + 1) * keys|)))
  }

  function Prune(t: Table, cutoff: int): Table { ExpireAll(t, Stale(t.inflight, cutoff)) }

  lemma LiveOneMore(m: map<Uint16, Entry>, keys: set<Uint16>, key: Uint16, ttl: int)
    requires key in m && key !in keys
    ensures |Live(m, ttl) * (keys + {key})| == |Live(m, ttl) * keys| + (if m[key].ttl == ttl then 1 else 0)
  {
    var live := Live(m, ttl);
    assert live * (keys + {key}) == if key in live then live * keys + {key} else live * keys;
  }

  lemma ExpireOneMore(t: Table, keys: set<Uint16>, key: Uint16)
    requires keys <= t.inflight.Keys && key in t.inflight && key !in keys
    ensures ExpireAll(t, keys + {key}) == Expire(ExpireAll(t, keys), key)
  {
    hide Live;
    var u, v := ExpireAll(t, keys + {key}), Expire(ExpireAll(t, keys), key);
    assert u.inflight == v.inflight;
    forall i | 0 <= i < |t.hops|
      ensures u.hops[i] == v.hops[i]
    {
      LiveOneMore(t.inflight, keys, key, i + 1);
    }
  }

  lemma LiveRemoveAll(m: map<Uint16, Entry>, keys: set<Uint16>, ttl: int)
    ensures |Live(m - keys, ttl)| == |Live(m, ttl)| - |Live(m, ttl) * keys|
  {
    var live := Live(m, ttl);
    assert Live(m - keys, ttl) == live - live * keys;
    SubsetCard(live * keys, live);
  }

  lemma PruneKeeps(t: Table, cutoff: int)
    requires Balanced(t)
    ensures Balanced(Prune(t, cutoff))
  {
    hide Live, Stale;
    var keys := Stale(t.inflight, cutoff);
    var u := Prune(t, cutoff);
    forall i | 0 <= i < |u.hops|
      ensures HopBalanced(u.hops[i], |Live(u.inflight, i + 1)|)
    {
      assert HopBalanced(t.hops[i], |Live(t.inflight, i + 1)|);
      LiveRemoveAll(t.inflight, keys, i + 1);
    }
  }

  datatype HopStat = HopStat(
    ttl: int, addr: Option<nat>, sent: int, recv: int,
    lastRTT: real, bestRTT: real, worstRTT: real, avgRTT: real, variance: real, baselineRTT: real,
    lossPct: real, terminus: bool)

  function StatOf(h: Hop, ttl: int): HopStat {
    HopStat(ttl, h.addr, h.sent, h.recv, h.last, h.best, h.worst, h.mean, Variance(h), h.ewma,
            LossPct(h), h.terminus)
  }

  /** The last hop worth showing. */
  function Cap(t: Table): int { if t.terminus > 0 then t.terminus else |t.hops| }

  /** Every probed hop up to ttl n, in order. */
  function StatsUpTo(hops: seq<Hop>, n: nat): seq<HopStat>
    requires n <= |hops|
  {
    if n == 0 then []
    else if hops[n - 1].sent == 0 then StatsUpTo(hops, n - 1)
    else StatsUpTo(hops, n - 1) + [StatOf(hops[n - 1], n)]
  }

  function BuildSnapshot(t: Table): seq<HopStat>
    requires 0 <= t.terminus <= |t.hops|
  {
    StatsUpTo(t.hops, Cap(t))
  }

  /** The ttls of a published table. */
  function Listed(s: seq<HopStat>): set<int> { set h | h in s :: h.ttl }

  ghost predicate Ascending(s: seq<HopStat>) { forall i, j | 0 <= i < j < |s| :: s[i].ttl < s[j].ttl }

  /** A published table lists exactly the probed hops, each once, in ascending order. */
  lemma {:induction false} StatsUpToMeaning(hops: seq<Hop>, n: nat)
    requires n <= |hops|
    ensures var s := StatsUpTo(hops, n);
            && Ascending(s)
            && Listed(s) == set i | 0 <= i < n && hops[i].sent != 0 :: i + 1
  {
    if n > 0 {
      StatsUpToMeaning(hops, n - 1);
      var s := StatsUpTo(hops, n - 1);
      forall i | 0 <= i < |s|
        ensures s[i].ttl < n
      {
        assert s[i].ttl in Listed(s);
      }
      if hops[n - 1].sent != 0 {
        ListedAppend(s, StatOf(hops[n - 1], n));
      }
    }
  }

  lemma ListedAppend(s: seq<HopStat>, h: HopStat)
    ensures Listed(s + [h]) == Listed(s) + {h.ttl}
  {
    assert forall x | x in s :: x in s + [h];
    assert Last(s + [h]) == h;
  }

  lemma {:induction false} AllProbedIsContiguous(hops: seq<Hop>, n: nat)
    requires n <= |hops| && forall i | 0 <= i < n :: hops[i].sent != 0
    ensures var s := StatsUpTo(hops, n);
            |s| == n && forall i | 0 <= i < n :: s[i] == StatOf(hops[i], i + 1)
  {
    if n > 0 {
      AllProbedIsContiguous(hops, n - 1);
    }
  }

  /** When every hop up to the cap has been probed, the snapshot is the contiguous table 1..cap, and
      only its last row can be flagged as the destination. */
  lemma ContiguousSnapshot(t: Table)
    requires Balanced(t) && forall i | 0 <= i < Cap(t) :: t.hops[i].sent != 0
    ensures var s := BuildSnapshot(t);
            && |s| == Cap(t)
            && (forall i | 0 <= i < |s| :: s[i] == StatOf(t.hops[i], i + 1))
            && (forall i | 0 <= i < |s| :: s[i].terminus ==> i == |s| - 1)
            && (t.terminus > 0 ==> Last(s).terminus)
            && (forall i | 0 <= i < |s| :: 0.0 <= s[i].lossPct <= 100.0)
  {
    AllProbedIsContiguous(t.hops, Cap(t));
    forall i | 0 <= i < Cap(t)
      ensures 0.0 <= LossPct(t.hops[i]) <= 100.0
    {
      BalancedLossInRange(t, i);
    }
  }
}
