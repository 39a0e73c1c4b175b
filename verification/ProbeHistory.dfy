/** What a hop's counters stand for: the fates of its probes, read off a record of what happened
    (internal/probe/probe_unix.go, probe_tcp_unix.go, hopstats.go). */
module ProbeHistory {
  import opened Prelude
  import opened HopStats
  import opened ProbeTable

  // ------------------------------------------------------------------
  // Fates
  // ------------------------------------------------------------------

  /** What can happen to the shared table: a probe leaves, a packet comes in, a dial is taken back, and
      probes sent before some moment are given up. */
  datatype Act =
    | Launch(key: Uint16, ttl: int, at: int)
    | Packet(key: Uint16, src: Option<nat>, now: int, echo: bool)
    | Withdraw(key: Uint16)
    | Expiry(cutoff: int)
    | Other

  predicate Closes(a: Act, probe: Act) {
    probe.Launch? &&
    match a
    case Packet(key, _, _, _) => key == probe.key
    case Withdraw(key) => key == probe.key
    case Expiry(cutoff) => probe.at < cutoff
    case _ => false
  }

  /** The probe of act i has met nothing that settles it before act j. */
  ghost predicate Open(w: seq<Act>, i: int, j: int) {
    0 <= i < j <= |w| && w[i].Launch? && forall m | i < m < j :: !Closes(w[m], w[i])
  }

  ghost predicate Settles(w: seq<Act>, j: int, i: int) { j < |w| && Open(w, i, j) && Closes(w[j], w[i]) }

  ghost function Launched(w: seq<Act>, ttl: int): set<int> {
    set i | 0 <= i < |w| && w[i].Launch? && w[i].ttl == ttl
  }

  ghost predicate MeetsPacket(w: seq<Act>, i: int) { exists j :: Settles(w, j, i) && w[j].Packet? }

  ghost predicate MeetsWithdrawal(w: seq<Act>, i: int) { exists j :: Settles(w, j, i) && w[j].Withdraw? }

  ghost predicate MeetsCutoff(w: seq<Act>, i: int) { exists j :: Settles(w, j, i) && w[j].Expiry? }

  ghost function Pending(w: seq<Act>, ttl: int): set<int> { set i | i in Launched(w, ttl) && Open(w, i, |w|) }

  ghost function Heard(w: seq<Act>, ttl: int): set<int> { set i | i in Launched(w, ttl) && MeetsPacket(w, i) }

  ghost function TakenBack(w: seq<Act>, ttl: int): set<int> {
    set i | i in Launched(w, ttl) && MeetsWithdrawal(w, i)
  }

  ghost function Aged(w: seq<Act>, ttl: int): set<int> { set i | i in Launched(w, ttl) && MeetsCutoff(w, i) }

  lemma {:induction false} OpenOrSettled(w: seq<Act>, i: int, j: int)
    requires 0 <= i < j <= |w| && w[i].Launch?
    ensures Open(w, i, j) || exists m :: m < j && Settles(w, m, i)
    decreases j
  {
    if i + 1 < j {
      OpenOrSettled(w, i, j - 1);
      if Open(w, i, j - 1) && !Open(w, i, j) {
        assert Settles(w, j - 1, i);
      }
    }
  }

  lemma SettlesOnce(w: seq<Act>, i: int, j: int, k: int)
    requires Settles(w, j, i) && (Settles(w, k, i) || (k == |w| && Open(w, i, k)))
    ensures j == k
  {
  }

  lemma SettlesInside(w: seq<Act>, j: int, i: int)
    requires Settles(w, j, i)
    ensures 0 <= i < j < |w| && (w[j].Packet? || w[j].Withdraw? || w[j].Expiry?)
  {
  }

  /** A probe is pending, answered, taken back or given up, and only one of these. */
  lemma OneFate(w: seq<Act>, i: int)
    requires 0 <= i < |w| && w[i].Launch?
    ensures Open(w, i, |w|) ==> !MeetsPacket(w, i) && !MeetsWithdrawal(w, i) && !MeetsCutoff(w, i)
    ensures MeetsPacket(w, i) ==> !MeetsWithdrawal(w, i) && !MeetsCutoff(w, i)
    ensures MeetsWithdrawal(w, i) ==> !MeetsCutoff(w, i)
    ensures Open(w, i, |w|) || MeetsPacket(w, i) || MeetsWithdrawal(w, i) || MeetsCutoff(w, i)
  {
    hide Open;
    OpenOrSettled(w, i, |w|);
    if !Open(w, i, |w|) {
      var m :| m < |w| && Settles(w, m, i);
      SettlesInside(w, m, i);
    }
    forall j, k | Settles(w, j, i) && (Settles(w, k, i) || (k == |w| && Open(w, i, k)))
      ensures j == k
    {
      SettlesOnce(w, i, j, k);
    }
  }

  /** So a hop's probes are the answered, the taken back, the given up and the pending ones. */
  lemma EachProbeSettlesOnce(w: seq<Act>, ttl: int)
    ensures Launched(w, ttl) == Pending(w, ttl) + Heard(w, ttl) + TakenBack(w, ttl) + Aged(w, ttl)
    ensures |Launched(w, ttl)|
            == |Pending(w, ttl)| + |Heard(w, ttl)| + |TakenBack(w, ttl)| + |Aged(w, ttl)|
  {
    hide Open, MeetsPacket, MeetsWithdrawal, MeetsCutoff;
    var p, h, b, a := Pending(w, ttl), Heard(w, ttl), TakenBack(w, ttl), Aged(w, ttl);
    forall i | i in Launched(w, ttl)
      ensures i in p + h + b + a && !(i in p && i in h + b + a) && !(i in h && i in b + a) && !(i in b && i in a)
    {
      OneFate(w, i);
    }
    assert Launched(w, ttl) == p + h + b + a;
    FourParts(p, h, b, a);
  }

  lemma FourParts(p: set<int>, h: set<int>, b: set<int>, a: set<int>)
    requires p !! h + b + a && h !! b + a && b !! a
    ensures |p + h + b + a| == |p| + |h| + |b| + |a|
  {
    assert |p + h + b| == |p + h| + |b|;
  }

  // ------------------------------------------------------------------
  // Answers
  // ------------------------------------------------------------------

  datatype Answer = Answer(src: Option<nat>, rtt: real, echo: bool)

  /** A packet under this key finds the probe of act i, which belongs to hop ttl. */
  ghost predicate Finds(w: seq<Act>, key: Uint16, ttl: int, i: int) {
    Open(w, i, |w|) && w[i].key == key && w[i].ttl == ttl
  }

  /** What the packets that found a probe of hop ttl said, in the order they came. */
  ghost function Answers(w: seq<Act>, ttl: int): seq<Answer> {
    if w == [] then []
    else
      var before, a := Front(w), Last(w);
      if a.Packet? && exists i :: Finds(before, a.key, ttl, i) then
        var i :| Finds(before, a.key, ttl, i);
        Answers(before, ttl) + [Answer(a.src, Millis(a.now - before[i].at), a.echo)]
      else Answers(before, ttl)
  }

  function Rtts(xs: seq<Answer>): seq<real> { seq(|xs|, i requires 0 <= i < |xs| => xs[i].rtt) }

  /** The first address seen, if any packet had one. */
  ghost predicate FirstSource(addr: Option<nat>, xs: seq<Answer>) {
    || (addr == None && forall x | x in xs :: x.src == None)
    || (exists i | 0 <= i < |xs| :: xs[i].src == addr != None && forall j | 0 <= j < i :: xs[j].src == None)
  }

  ghost predicate Told(h: Hop, xs: seq<Answer>) {
    && h == Replies(Rtts(xs)).(addr := h.addr, sent := h.sent, inflight := h.inflight, terminus := h.terminus)
    && FirstSource(h.addr, xs)
    && (h.terminus <==> exists x :: x in xs && x.echo)
  }

  ghost predicate HopTold(h: Hop, w: seq<Act>, ttl: int) {
    && h.sent == |Launched(w, ttl)| - |TakenBack(w, ttl)|
    && h.recv == |Heard(w, ttl)|
    && Told(h, Answers(w, ttl))
  }

  lemma {:induction false} ToldStep(h: Hop, xs: seq<Answer>, x: Answer)
    requires Told(h, xs)
    ensures Told(Replied(Unsettle(h), x.src, x.rtt, x.echo), xs + [x])
  {
    hide MeanStep, M2Step, EwmaStep;
    var g, ys := Replied(Unsettle(h), x.src, x.rtt, x.echo), xs + [x];
    assert Front(Rtts(ys)) == Rtts(xs) && Last(Rtts(ys)) == x.rtt;
    assert g.terminus <==> exists y :: y in ys && y.echo by {
      assert forall y :: y in ys <==> y in xs || y == x;
    }
    FirstSourceStep(h.addr, xs, x);
  }

  lemma FirstSourceStep(addr: Option<nat>, xs: seq<Answer>, x: Answer)
    requires FirstSource(addr, xs)
    ensures FirstSource(if addr == None then x.src else addr, xs + [x])
  {
    var ys := xs + [x];
    assert ys[|xs|] == x && forall y :: y in ys <==> y in xs || y == x;
    if addr != None {
      var i :| 0 <= i < |xs| && xs[i].src == addr != None && forall j | 0 <= j < i :: xs[j].src == None;
      assert ys[i].src == addr && forall j | 0 <= j < i :: ys[j].src == None;
    } else if x.src != None {
      assert forall j | 0 <= j < |xs| :: xs[j] in xs;
      assert ys[|xs|].src == x.src && forall j | 0 <= j < |xs| :: ys[j].src == None;
    }
  }

  // ------------------------------------------------------------------
  // The table tells the record
  // ------------------------------------------------------------------

  /** What each act does to the table. */
  function Apply(t: Table, a: Act): Table {
    match a
    case Launch(key, ttl, at) => if 1 <= ttl <= |t.hops| then Register(t, key, ttl, at) else t
    case Packet(key, src, now, echo) => Reply(t, key, src, now, echo)
    case Withdraw(key) => if key in t.inflight then Rollback(t, key, t.inflight[key].ttl) else t
    case Expiry(cutoff) => Prune(t, cutoff)
    case Other => t
  }

  ghost predicate ProbeIsLive(m: map<Uint16, Entry>, w: seq<Act>, i: int) {
    Open(w, i, |w|) ==> w[i].key in m && m[w[i].key] == Entry(w[i].ttl, w[i].at)
  }

  ghost predicate OneKeyEach(w: seq<Act>) {
    forall i, j | Open(w, i, |w|) && Open(w, j, |w|) && w[i].key == w[j].key :: i == j
  }

  /** The in-flight map is the set of pending probes, each under a key of its own. */
  ghost predicate LiveIsPending(m: map<Uint16, Entry>, w: seq<Act>) {
    && (forall key | key in m :: exists i :: Finds(w, key, m[key].ttl, i))
    && (forall i | Open(w, i, |w|) :: ProbeIsLive(m, w, i))
    && OneKeyEach(w)
  }

  ghost predicate TableTold(t: Table, w: seq<Act>) {
    && Balanced(t) && LiveIsPending(t.inflight, w)
    && forall i | 0 <= i < |t.hops| :: HopTold(t.hops[i], w, i + 1)
  }

  /** A probe goes out under a key that no live probe holds, to a hop that exists. */
  ghost predicate Sound(t: Table, a: Act) {
    a.Launch? ==> 1 <= a.ttl <= |t.hops| && a.key !in t.inflight
  }

  lemma OpenBefore(w: seq<Act>, a: Act, i: int, j: int)
    requires j <= |w|
    ensures Open(w + [a], i, j) <==> Open(w, i, j)
  {
    var u := w + [a];
    if 0 <= i < j {
      assert forall m | i <= m < j :: u[m] == w[m];
    }
  }

  ghost predicate StaysOpen(w: seq<Act>, a: Act, i: int) { Open(w, i, |w|) && !Closes(a, w[i]) }

  lemma OpenAfter(w: seq<Act>, a: Act, i: int)
    ensures Open(w + [a], i, |w| + 1) <==> (i == |w| && a.Launch?) || StaysOpen(w, a, i)
  {
    var u := w + [a];
    assert u[|w|] == a;
    if 0 <= i < |w| {
      OpenBefore(w, a, i, |w|);
      assert u[i] == w[i];
      if Open(w, i, |w|) {
        assert Open(u, i, |w| + 1) <==> !Closes(u[|w|], u[i]);
      }
      assert Open(u, i, |w| + 1) ==> Open(u, i, |w|);
    }
  }

  ghost predicate ClosedNow(w: seq<Act>, a: Act, i: int) { Open(w, i, |w|) && Closes(a, w[i]) }

  lemma SettlesStep(w: seq<Act>, a: Act, i: int, j: int)
    ensures Settles(w + [a], j, i) <==> Settles(w, j, i) || (j == |w| && ClosedNow(w, a, i))
  {
    hide Closes;
    if j <= |w| {
      OpenBefore(w, a, i, j);
    }
  }

  lemma MeetsStep(w: seq<Act>, a: Act, i: int)
    ensures MeetsPacket(w + [a], i) <==> MeetsPacket(w, i) || (a.Packet? && ClosedNow(w, a, i))
    ensures MeetsWithdrawal(w + [a], i) <==> MeetsWithdrawal(w, i) || (a.Withdraw? && ClosedNow(w, a, i))
  {
    hide ClosedNow, Settles;
    var u := w + [a];
    forall j
      ensures Settles(u, j, i) <==> Settles(w, j, i) || (j == |w| && ClosedNow(w, a, i))
    {
      SettlesStep(w, a, i, j);
    }
    forall j | Settles(w, j, i)
      ensures 0 <= j < |w| && u[j] == w[j]
    {
      SettlesInside(w, j, i);
    }
    assert u[|w|] == a;
  }

  /** The probe a packet under this key finds, if it belongs to hop ttl. */
  ghost function Found(w: seq<Act>, key: Uint16, ttl: int): set<int> {
    set i | i in Launched(w, ttl) && Finds(w, key, ttl, i)
  }

  lemma FatesStep(w: seq<Act>, a: Act, ttl: int)
    ensures Launched(w + [a], ttl) == Launched(w, ttl) + (if a.Launch? && a.ttl == ttl then {|w|} else {})
    ensures Heard(w + [a], ttl) == Heard(w, ttl) + (if a.Packet? then Found(w, a.key, ttl) else {})
    ensures TakenBack(w + [a], ttl)
         == TakenBack(w, ttl) + (if a.Withdraw? then Found(w, a.key, ttl) else {})
    ensures |w| !in Launched(w, ttl)
    ensures a.Packet? || a.Withdraw? ==> Found(w, a.key, ttl) !! Heard(w, ttl) + TakenBack(w, ttl)
  {
    var u := w + [a];
    forall i
      ensures MeetsPacket(u, i) <==> MeetsPacket(w, i) || (a.Packet? && ClosedNow(w, a, i))
      ensures MeetsWithdrawal(u, i) <==> MeetsWithdrawal(w, i) || (a.Withdraw? && ClosedNow(w, a, i))
    {
      MeetsStep(w, a, i);
    }
    hide MeetsPacket, MeetsWithdrawal;
    forall i | Open(w, i, |w|)
      ensures !MeetsPacket(w, i) && !MeetsWithdrawal(w, i)
    {
      OpenMeetsNothing(w, i);
    }
    forall i | MeetsPacket(w, i) || MeetsWithdrawal(w, i)
      ensures 0 <= i < |w|
    {
      MetInside(w, i);
    }
    assert forall i | 0 <= i < |w| :: u[i] == w[i];
    assert u[|w|] == a;
    assert Launched(u, ttl) == Launched(w, ttl) + (if a.Launch? && a.ttl == ttl then {|w|} else {});
  }

  lemma OpenMeetsNothing(w: seq<Act>, i: int)
    requires Open(w, i, |w|)
    ensures !MeetsPacket(w, i) && !MeetsWithdrawal(w, i)
  {
  }

  lemma MetInside(w: seq<Act>, i: int)
    requires MeetsPacket(w, i) || MeetsWithdrawal(w, i)
    ensures 0 <= i < |w|
  {
  }

  lemma FoundIsLive(m: map<Uint16, Entry>, w: seq<Act>, key: Uint16, ttl: int)
    requires LiveIsPending(m, w)
    ensures |Found(w, key, ttl)| == if key in m && m[key].ttl == ttl then 1 else 0
    ensures forall i | Finds(w, key, ttl, i) :: key in m && m[key].sentAt == w[i].at
    ensures (exists i :: Finds(w, key, ttl, i)) <==> key in m && m[key].ttl == ttl
  {
    if key in m && m[key].ttl == ttl {
      var i :| Finds(w, key, m[key].ttl, i);
      assert Found(w, key, ttl) == {i};
    } else {
      assert Found(w, key, ttl) == {};
    }
  }

  lemma {:induction false} InjectiveImage(s: set<int>, w: seq<Act>)
    requires forall i | i in s :: 0 <= i < |w| && w[i].Launch?
    requires forall i, j | i in s && j in s && w[i].key == w[j].key :: i == j
    ensures |set i | i in s :: w[i].key| == |s|
    decreases |s|
  {
    if s != {} {
      SomeElement(s);
      var x :| x in s;
      InjectiveImage(s - {x}, w);
      assert (set i | i in s :: w[i].key) == (set i | i in s - {x} :: w[i].key) + {w[x].key};
    }
  }

  lemma PendingCount(m: map<Uint16, Entry>, w: seq<Act>, ttl: int)
    requires LiveIsPending(m, w)
    ensures |Pending(w, ttl)| == |Live(m, ttl)|
  {
    var p := Pending(w, ttl);
    InjectiveImage(p, w);
    forall key | key in Live(m, ttl)
      ensures exists i :: i in p && w[i].key == key
    {
      var i :| Finds(w, key, m[key].ttl, i);
      assert i in p;
    }
    assert (set i | i in p :: w[i].key) == Live(m, ttl);
  }

  lemma OneKeyStep(m: map<Uint16, Entry>, w: seq<Act>, a: Act)
    requires LiveIsPending(m, w) && (a.Launch? ==> a.key !in m)
    ensures OneKeyEach(w + [a])
  {
    hide Open;
    var u := w + [a];
    forall i, j | Open(u, i, |u|) && Open(u, j, |u|)
      ensures 0 <= i < |u| && 0 <= j < |u| && u[i].Launch? && u[j].Launch?
      ensures u[i].key == u[j].key ==> i == j
    {
      OpenAfter(w, a, i);
      OpenAfter(w, a, j);
      OpenStaysInside(w, a, i);
      OpenStaysInside(w, a, j);
    }
  }

  lemma LiveStep(t: Table, w: seq<Act>, a: Act)
    requires LiveIsPending(t.inflight, w) && Sound(t, a)
    ensures LiveIsPending(Apply(t, a).inflight, w + [a])
  {
    hide Apply, Open, OneKeyEach;
    var m, n, u := t.inflight, Apply(t, a).inflight, w + [a];
    InflightAfter(t, a);
    OneKeyStep(m, w, a);
    forall key | key in n
      ensures exists i :: Finds(u, key, n[key].ttl, i)
    {
      LiveStillFound(m, n, w, a, key);
    }
    forall i | Open(u, i, |u|)
      ensures ProbeIsLive(n, u, i)
    {
      OpenAfter(w, a, i);
      OpenStaysInside(w, a, i);
    }
  }

  lemma LiveStillFound(m: map<Uint16, Entry>, n: map<Uint16, Entry>, w: seq<Act>, a: Act, key: Uint16)
    requires LiveIsPending(m, w) && key in n
    requires if a.Launch? && key == a.key then n[key] == Entry(a.ttl, a.at)
             else key in m && n[key] == m[key]
                  && (a.Packet? || a.Withdraw? ==> key != a.key) && (a.Expiry? ==> n[key].sentAt >= a.cutoff)
    ensures exists i :: Finds(w + [a], key, n[key].ttl, i)
  {
    hide Open, OneKeyEach;
    if a.Launch? && key == a.key {
      OpenAfter(w, a, |w|);
      assert Finds(w + [a], key, n[key].ttl, |w|);
    } else {
      var i :| Finds(w, key, m[key].ttl, i);
      OpenInside(w, i);
      OpenAfter(w, a, i);
      assert Finds(w + [a], key, n[key].ttl, i);
    }
  }

  lemma OpenStaysInside(w: seq<Act>, a: Act, i: int)
    requires StaysOpen(w, a, i) || Open(w + [a], i, |w| + 1)
    ensures 0 <= i < |w + [a]| && (w + [a])[i].Launch?
  {
  }

  lemma OpenInside(w: seq<Act>, i: int)
    requires Open(w, i, |w|)
    ensures 0 <= i < |w| && w[i].Launch?
  {
  }

  /** What is in flight after an act. */
  lemma InflightAfter(t: Table, a: Act)
    requires Sound(t, a)
    ensures var m, n := t.inflight, Apply(t, a).inflight;
            && (a.Launch? ==> n == m[a.key := Entry(a.ttl, a.at)])
            && (a.Packet? || a.Withdraw? ==> n == m - {a.key})
            && (a.Expiry? ==> forall key :: key in n <==> key in m && m[key].sentAt >= a.cutoff)
            && (a.Other? ==> n == m)
            && (forall key | key in n && !(a.Launch? && key == a.key) :: key in m && n[key] == m[key])
  {
    if (a.Packet? || a.Withdraw?) && a.key !in t.inflight {
      assert t.inflight - {a.key} == t.inflight;
    }
  }

  lemma BalancedStep(t: Table, a: Act)
    requires Balanced(t) && Sound(t, a)
    ensures Balanced(Apply(t, a)) && |Apply(t, a).hops| == |t.hops|
  {
    hide Balanced;
    match a
    case Launch(key, ttl, at) => RegisterFreshKeeps(t, key, ttl, at);
    case Packet(key, src, now, echo) =>
      if key in t.inflight { SettleOwnKeeps(t, key, src, Millis(now - t.inflight[key].sentAt), echo); }
    case Withdraw(key) => if key in t.inflight { RollbackOwnKeeps(t, key); }
    case Expiry(cutoff) => PruneKeeps(t, cutoff);
    case Other =>
  }

  /** How one hop's counters move. */
  lemma HopAfter(t: Table, a: Act, i: nat)
    requires Balanced(t) && Sound(t, a) && i < |t.hops|
    ensures |Apply(t, a).hops| == |t.hops|
    ensures var h, g := t.hops[i], Apply(t, a).hops[i];
            match a
            case Launch(_, ttl, _) => g == if ttl == i + 1 then Sent(h, 1) else h
            case Packet(key, src, now, echo) =>
              g == if key in t.inflight && t.inflight[key].ttl == i + 1
                   then Replied(Unsettle(h), src, Millis(now - t.inflight[key].sentAt), echo) else h
            case Withdraw(key) => g == if key in t.inflight && t.inflight[key].ttl == i + 1 then Sent(h, -1) else h
            case Expiry(_) => g == h.(inflight := g.inflight)
            case Other => g == h
  {
    hide Replied;
  }

  lemma AnswersStep(w: seq<Act>, a: Act, ttl: int)
    ensures var r := Answers(w + [a], ttl);
            if a.Packet? && exists i :: Finds(w, a.key, ttl, i)
            then exists i :: Finds(w, a.key, ttl, i)
                             && r == Answers(w, ttl) + [Answer(a.src, Millis(a.now - w[i].at), a.echo)]
            else r == Answers(w, ttl)
  {
    assert Front(w + [a]) == w && Last(w + [a]) == a;
  }

  /** How the counts of a hop's fates move. */
  lemma CountsStep(m: map<Uint16, Entry>, w: seq<Act>, a: Act, ttl: int)
    requires LiveIsPending(m, w)
    ensures var found := if (a.Packet? || a.Withdraw?) && a.key in m && m[a.key].ttl == ttl then 1 else 0;
            && |Launched(w + [a], ttl)| == |Launched(w, ttl)| + (if a.Launch? && a.ttl == ttl then 1 else 0)
            && |Heard(w + [a], ttl)| == |Heard(w, ttl)| + (if a.Packet? then found else 0)
            && |TakenBack(w + [a], ttl)| == |TakenBack(w, ttl)| + (if a.Withdraw? then found else 0)
  {
    hide Launched, Heard, TakenBack, Found, LiveIsPending, Finds;
    FatesStep(w, a, ttl);
    if a.Packet? || a.Withdraw? {
      FoundIsLive(m, w, a.key, ttl);
    }
  }

  /** How its list of answers moves. */
  lemma AnswersMove(m: map<Uint16, Entry>, w: seq<Act>, a: Act, ttl: int)
    requires LiveIsPending(m, w)
    ensures Answers(w + [a], ttl)
            == if a.Packet? && a.key in m && m[a.key].ttl == ttl
               then Answers(w, ttl) + [Answer(a.src, Millis(a.now - m[a.key].sentAt), a.echo)]
               else Answers(w, ttl)
  {
    hide Answers, LiveIsPending, Finds, Millis, Found;
    AnswersStep(w, a, ttl);
    if a.Packet? {
      FoundIsLive(m, w, a.key, ttl);
    }
  }

  lemma HopStep(t: Table, w: seq<Act>, a: Act, i: nat)
    requires Balanced(t) && LiveIsPending(t.inflight, w) && Sound(t, a)
    requires i < |t.hops| && HopTold(t.hops[i], w, i + 1)
    ensures |Apply(t, a).hops| == |t.hops| && HopTold(Apply(t, a).hops[i], w + [a], i + 1)
  {
    hide Launched, Heard, TakenBack, Answers, Balanced, LiveIsPending, Apply, Replied, Told, Millis;
    HopAfter(t, a, i);
    CountsStep(t.inflight, w, a, i + 1);
    AnswersMove(t.inflight, w, a, i + 1);
    var h, g, xs := t.hops[i], Apply(t, a).hops[i], Answers(w, i + 1);
    if a.Packet? && a.key in t.inflight && t.inflight[a.key].ttl == i + 1 {
      var x := Answer(a.src, Millis(a.now - t.inflight[a.key].sentAt), a.echo);
      ToldStep(h, xs, x);
      RepliedCounts(h, x);
    } else {
      ToldDependsOnAnswers(h, g, xs);
    }
  }

  lemma RepliedCounts(h: Hop, x: Answer)
    ensures var g := Replied(Unsettle(h), x.src, x.rtt, x.echo);
            g.sent == h.sent && g.recv == h.recv + 1
  {
  }

  /** Sending and settling leave alone what the answers decide. */
  lemma ToldDependsOnAnswers(h: Hop, g: Hop, xs: seq<Answer>)
    requires Told(h, xs) && g == h.(sent := g.sent, inflight := g.inflight)
    ensures Told(g, xs)
  {
  }

  lemma {:induction false} TableStep(t: Table, w: seq<Act>, a: Act)
    requires TableTold(t, w) && Sound(t, a)
    ensures TableTold(Apply(t, a), w + [a])
  {
    hide Balanced, LiveIsPending, Apply, HopTold;
    BalancedStep(t, a);
    LiveStep(t, w, a);
    forall i | 0 <= i < |t.hops|
      ensures HopTold(Apply(t, a).hops[i], w + [a], i + 1)
    {
      HopStep(t, w, a, i);
    }
  }

  lemma FreshIsTold(t: Table)
    requires FreshTable(t)
    ensures TableTold(t, [])
  {
    FreshIsBalanced(t);
    forall i | 0 <= i < |t.hops|
      ensures HopTold(t.hops[i], [], i + 1)
    {
      assert Rtts([]) == [];
      assert Launched([], i + 1) == {};
      assert Heard([], i + 1) == {} && TakenBack([], i + 1) == {};
    }
  }

  // ------------------------------------------------------------------
  // What is published
  // ------------------------------------------------------------------

  /** The round-trip figures of a hop: sample variance, and a baseline whose weights decay. */
  ghost predicate FiguresTold(
      last: real, best: real, worst: real, avg: real, variance: real, baseline: real, rtts: seq<real>)
  {
    var n := |rtts| as real;
    if rtts == [] then
      last == best == worst == avg == variance == baseline == 0.0
    else
      && last == Last(rtts) && best == Least(rtts) && worst == Greatest(rtts)
      && n * avg == Total(rtts)
      && (n - 1.0) * variance == Spread(rtts, avg) && (|rtts| == 1 ==> variance == 0.0)
      && baseline == Decayed(rtts, |rtts|)
  }

  /** Of n settled probes, the percentage that was given up. */
  ghost predicate LossTold(lossPct: real, n: nat, lost: nat) {
    if n == 0 then lossPct == 0.0 else lossPct * n as real == 100.0 * lost as real
  }

  ghost predicate RowTold(r: HopStat, w: seq<Act>, ttl: int) {
    var xs := Answers(w, ttl);
    && r.ttl == ttl
    && r.sent == |Launched(w, ttl)| - |TakenBack(w, ttl)|
    && r.recv == |Heard(w, ttl)| == |xs|
    && LossTold(r.lossPct, |Heard(w, ttl)| + |Aged(w, ttl)|, |Aged(w, ttl)|)
    && FirstSource(r.addr, xs)
    && (r.terminus <==> Echoed(w, ttl))
    && FiguresTold(r.lastRTT, r.bestRTT, r.worstRTT, r.avgRTT, r.variance, r.baselineRTT, Rtts(xs))
  }

  ghost predicate Echoed(w: seq<Act>, ttl: int) { exists x :: x in Answers(w, ttl) && x.echo }

  /** The nearest hop that answered as the destination, or else the last hop. */
  ghost predicate IsCap(cap: int, w: seq<Act>, hops: nat) {
    && 0 <= cap <= hops && (cap < hops ==> 1 <= cap && Echoed(w, cap))
    && forall ttl | 1 <= ttl < cap :: !Echoed(w, ttl)
  }

  lemma FiguresOf(h: Hop, xs: seq<Answer>)
    requires Told(h, xs)
    ensures FiguresTold(h.last, h.best, h.worst, h.mean, Variance(h), h.ewma, Rtts(xs))
  {
    var rtts := Rtts(xs);
    hide Least, Greatest, Total, Spread, Decayed, Replied, LossPct, FirstSource;
    if rtts != [] {
      ExtremesMean(rtts);
      EstimatorsMean(rtts);
      DispersionMeaning(rtts);
      BaselineMeaning(rtts);
      if |rtts| == 1 {
        OneHasNoSpread(rtts);
      }
      VarianceTimes(Replies(rtts), rtts);
    }
  }

  lemma VarianceTimes(h: Hop, rtts: seq<real>)
    requires h.recv == |rtts| > 0 && (|rtts| == 1 ==> h.m2 == 0.0)
    ensures (|rtts| as real - 1.0) * Variance(h) == h.m2
  {
    if |rtts| > 1 {
      var q := h.m2 / (h.recv - 1) as real;
      assert q * (h.recv - 1) as real == h.m2;
    }
  }

  lemma OneHasNoSpread(rtts: seq<real>)
    requires |rtts| == 1
    ensures Replies(rtts).m2 == 0.0
  {
    assert Front(rtts) == [];
  }

  lemma LossOf(h: Hop, recv: nat, lost: nat)
    requires h.recv == recv && h.sent == recv + h.inflight + lost
    ensures LossTold(LossPct(h), recv + lost, lost)
  {
    if recv + lost > 0 {
      var q := lost as real / (recv + lost) as real;
      assert q * (recv + lost) as real == lost as real;
    }
  }

  lemma RowOfHop(t: Table, w: seq<Act>, i: nat)
    requires TableTold(t, w) && i < |t.hops|
    ensures RowTold(StatOf(t.hops[i], i + 1), w, i + 1)
    ensures t.hops[i].sent == t.hops[i].recv + t.hops[i].inflight + |Aged(w, i + 1)|
    ensures t.hops[i].inflight == |Pending(w, i + 1)|
  {
    hide LiveIsPending, Launched, TakenBack, Heard, Aged, Pending, Live, LossPct, FiguresTold, FirstSource, Variance;
    var h := t.hops[i];
    assert HopTold(h, w, i + 1) && HopBalanced(h, |Live(t.inflight, i + 1)|);
    PendingCount(t.inflight, w, i + 1);
    EachProbeSettlesOnce(w, i + 1);
    FiguresOf(h, Answers(w, i + 1));
    LossOf(h, |Heard(w, i + 1)|, |Aged(w, i + 1)|);
  }

  lemma SentOfHop(t: Table, w: seq<Act>, i: nat)
    requires TableTold(t, w) && i < |t.hops|
    ensures 0 <= t.hops[i].sent == |Launched(w, i + 1)| - |TakenBack(w, i + 1)|
  {
    hide LiveIsPending, Launched, TakenBack, Heard, Aged, Told, RowTold;
    RowOfHop(t, w, i);
    assert HopTold(t.hops[i], w, i + 1) && HopBalanced(t.hops[i], |Live(t.inflight, i + 1)|);
  }

  lemma CapOf(t: Table, w: seq<Act>)
    requires TableTold(t, w)
    ensures IsCap(Cap(t), w, |t.hops|)
  {
    hide LiveIsPending, Answers, Launched, Heard, TakenBack, FirstSource;
    forall ttl | 1 <= ttl <= |t.hops|
      ensures t.hops[ttl - 1].terminus <==> Echoed(w, ttl)
    {
      assert HopTold(t.hops[ttl - 1], w, ttl - 1 + 1);
    }
  }

  /** A published table lists, in order, the hops up to the cap with a probe that was not taken back,
      and every figure of every row is the one the record tells. */
  ghost predicate SnapshotTold(s: seq<HopStat>, w: seq<Act>, hops: nat) {
    && Ascending(s)
    && (forall r | r in s :: RowTold(r, w, r.ttl))
    && (exists cap :: IsCap(cap, w, hops)
         && forall ttl :: ttl in Listed(s) <==> 1 <= ttl <= cap && |Launched(w, ttl)| > |TakenBack(w, ttl)|)
  }

  lemma {:induction false} RowsAreHops(hops: seq<Hop>, n: nat)
    requires n <= |hops|
    ensures forall r | r in StatsUpTo(hops, n) :: 1 <= r.ttl <= n && r == StatOf(hops[r.ttl - 1], r.ttl)
  {
    if n > 0 {
      RowsAreHops(hops, n - 1);
    }
  }

  lemma SnapshotTells(t: Table, w: seq<Act>)
    requires TableTold(t, w)
    ensures 0 <= t.terminus <= |t.hops| && SnapshotTold(BuildSnapshot(t), w, |t.hops|)
  {
    hide RowTold, StatOf, HopTold, LiveIsPending, Launched, TakenBack, IsCap;
    var s := BuildSnapshot(t);
    CapOf(t, w);
    RowsAreHops(t.hops, Cap(t));
    StatsUpToMeaning(t.hops, Cap(t));
    forall r | r in s
      ensures RowTold(r, w, r.ttl)
    {
      RowOfHop(t, w, r.ttl - 1);
    }
    forall ttl
      ensures ttl in Listed(s) <==> 1 <= ttl <= Cap(t) && |Launched(w, ttl)| > |TakenBack(w, ttl)|
    {
      if 1 <= ttl <= Cap(t) {
        SentOfHop(t, w, ttl - 1);
        assert t.hops[ttl - 1].sent != 0 ==> ttl - 1 + 1 in Listed(s);
      }
    }
  }
}
