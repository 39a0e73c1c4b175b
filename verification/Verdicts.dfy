/** Merging the two correlators and marking the tables (internal/agg/correlate.go,
    cmd/dropline/trace.go). */
module Verdicts {
  import opened Prelude
  import opened Sorting
  import opened Correlate

  function SourceRank(s: Source): int {
    match s case IcmpAndTcp => 0 case Tcp => 1 case Icmp => 2 case Unnamed => 3
  }

  /** Strongest first; a joint verdict breaks ties. */
  const BY_RANK: (Suspect, Suspect) -> bool :=
    (x: Suspect, y: Suspect) =>
      if x.confidence != y.confidence then x.confidence > y.confidence
      else SourceRank(x.source) < SourceRank(y.source)

  function NamedAs(s: Suspect, d: Source): Suspect { if s.source == Unnamed then s.(source := d) else s }

  /** The merge table after all of icmp. */
  function IcmpTable(icmp: seq<Suspect>): map<int, Suspect> {
    if icmp == [] then map[] else IcmpTable(Front(icmp))[Last(icmp).ttl := NamedAs(Last(icmp), Icmp)]
  }

  function Joined(m: map<int, Suspect>, s: Suspect): map<int, Suspect> {
    if s.ttl in m
    then m[s.ttl := Suspect(s.ttl, MaxReal(m[s.ttl].confidence, s.confidence), IcmpAndTcp)]
    else m[s.ttl := NamedAs(s, Tcp)]
  }

  /** The merge table after all of icmp and all of tcp. */
  function MergeTable(icmp: seq<Suspect>, tcp: seq<Suspect>): map<int, Suspect> {
    if tcp == [] then IcmpTable(icmp) else Joined(MergeTable(icmp, Front(tcp)), Last(tcp))
  }

  function TTLs(s: seq<Suspect>): set<int> { set x | x in s :: x.ttl }

  /** The TTLs to mark in one source's table. */
  function MarkedFor(m: map<int, Suspect>, source: Source): set<int> {
    set ttl | ttl in m && (m[ttl].source == source || m[ttl].source == IcmpAndTcp)
  }

  ghost predicate Keyed(m: map<int, Suspect>) { forall ttl | ttl in m :: m[ttl].ttl == ttl }

  ghost predicate OnePer(s: seq<Suspect>) { forall i, j | 0 <= i < j < |s| :: s[i].ttl != s[j].ttl }

  /** The list holds exactly the entries of the table. */
  ghost predicate Lists(s: seq<Suspect>, m: map<int, Suspect>) {
    (forall x | x in s :: x.ttl in m && x == m[x.ttl]) && (forall ttl | ttl in m :: m[ttl] in s)
  }

  /** Descending confidence; among equals the joint verdicts come first, then TCP's, then ICMP's. */
  ghost predicate RankedStrongestFirst(s: seq<Suspect>) {
    forall i, j | 0 <= i < j < |s| ::
      && s[i].confidence >= s[j].confidence
      && (s[i].confidence == s[j].confidence ==>
            && (s[j].source == IcmpAndTcp ==> s[i].source == IcmpAndTcp)
            && (s[j].source == Tcp ==> s[i].source == IcmpAndTcp || s[i].source == Tcp)
            && (s[j].source == Icmp ==> s[i].source != Unnamed))
  }

  lemma RankMeaning(s: seq<Suspect>)
    requires Ordered(s, BY_RANK)
    ensures RankedStrongestFirst(s)
  {
    forall i, j | 0 <= i < j < |s|
      ensures !BY_RANK(s[j], s[i])
    {
    }
  }

  // ------------------------------------------------------------------
  // The source's loops
  // ------------------------------------------------------------------

  method MergeSuspects(icmp: seq<Suspect>, tcp: seq<Suspect>) returns (out: seq<Suspect>)
    ensures Lists(out, MergeTable(icmp, tcp))
    ensures OnePer(out) && RankedStrongestFirst(out)
  {
    if |icmp| == 0 && |tcp| == 0 {
      return [];
    }
    var byTTL: map<int, Suspect> := map[];
    for i := 0 to |icmp|
      invariant byTTL == IcmpTable(icmp[..i])
    {
      assert Front(icmp[..i + 1]) == icmp[..i];
      var s := icmp[i];
      if s.source == Unnamed {
        s := s.(source := Icmp);
      }
      byTTL := byTTL[s.ttl := s];
    }
    assert icmp[..|icmp|] == icmp;
    for i := 0 to |tcp|
      invariant byTTL == MergeTable(icmp, tcp[..i])
    {
      assert Front(tcp[..i + 1]) == tcp[..i];
      var s := tcp[i];
      if s.source == Unnamed {
        s := s.(source := Tcp);
      }
      if s.ttl in byTTL {
        var conf := byTTL[s.ttl].confidence;
        if s.confidence > conf {
          conf := s.confidence;
        }
        byTTL := byTTL[s.ttl := Suspect(s.ttl, conf, IcmpAndTcp)];
        continue;
      }
      byTTL := byTTL[s.ttl := s];
    }
    assert tcp[..|tcp|] == tcp;
    MergeTableKeyed(icmp, tcp);
    out := Collect(byTTL);
    SortedOnePer(out);
    out := Sort(out, BY_RANK);
    RankMeaning(out);
  }

  /** Ranges over the table in whatever order it yields its keys. */
  method Collect(m: map<int, Suspect>) returns (out: seq<Suspect>)
    requires Keyed(m)
    ensures OnePer(out) && Lists(out, m)
  {
    out := [];
    var todo := m.Keys;
    while todo != {}
      invariant todo <= m.Keys && OnePer(out)
      invariant forall s | s in out :: s.ttl in m && s.ttl !in todo && s == m[s.ttl]
      invariant forall ttl | ttl in m && ttl !in todo :: m[ttl] in out
      decreases todo
    {
      SomeElement(todo);
      var ttl :| ttl in todo;
      todo := todo - {ttl};
      out := out + [m[ttl]];
    }
  }

  method SuspectTTLsForSource(suspects: seq<Suspect>, source: Source) returns (out: seq<int>)
    ensures forall ttl :: ttl in out <==> exists i :: 0 <= i < |suspects| && suspects[i].ttl == ttl
                                            && (suspects[i].source == source || suspects[i].source == IcmpAndTcp)
  {
    out := [];
    for n := 0 to |suspects|
      invariant forall ttl :: ttl in out <==> exists i :: 0 <= i < n && suspects[i].ttl == ttl
                                                 && (suspects[i].source == source || suspects[i].source == IcmpAndTcp)
    {
      if suspects[n].source == source || suspects[n].source == IcmpAndTcp {
        out := out + [suspects[n].ttl];
      }
    }
  }

  lemma {:induction false} IcmpTableMeaning(icmp: seq<Suspect>)
    ensures Keyed(IcmpTable(icmp)) && IcmpTable(icmp).Keys == TTLs(icmp)
    ensures (forall s | s in icmp :: s.source == Icmp || s.source == Unnamed) ==>
              forall ttl | ttl in IcmpTable(icmp) :: IcmpTable(icmp)[ttl].source == Icmp
  {
    if icmp != [] {
      IcmpTableMeaning(Front(icmp));
      TTLsLast(icmp);
      assert forall s | s in Front(icmp) :: s in icmp;
    }
  }

  lemma TTLsLast(s: seq<Suspect>)
    requires s != []
    ensures TTLs(s) == TTLs(Front(s)) + {Last(s).ttl}
  {
    assert s == Front(s) + [Last(s)];
    forall ttl | ttl in TTLs(s)
      ensures ttl in TTLs(Front(s)) + {Last(s).ttl}
    {
      var x :| x in s && x.ttl == ttl;
      assert x == Last(s) || x in Front(s);
    }
  }

  lemma {:induction false} MergeTableKeyed(icmp: seq<Suspect>, tcp: seq<Suspect>)
    ensures Keyed(MergeTable(icmp, tcp)) && MergeTable(icmp, tcp).Keys == TTLs(icmp) + TTLs(tcp)
  {
    IcmpTableMeaning(icmp);
    if tcp != [] {
      MergeTableKeyed(icmp, Front(tcp));
      TTLsLast(tcp);
    }
  }

  lemma {:induction false} SortedOnePer(s: seq<Suspect>)
    requires OnePer(s)
    ensures OnePer(Sort(s, BY_RANK)) && Ordered(Sort(s, BY_RANK), BY_RANK)
    ensures forall x :: x in Sort(s, BY_RANK) <==> x in s
  {
    ByRankIsOrder();
    SortOrders(s, BY_RANK);
    SortPermutes(s, BY_RANK);
    SameElements(Sort(s, BY_RANK), s);
    OnePerPermutes(s, Sort(s, BY_RANK));
  }

  lemma ByRankIsOrder()
    ensures IsOrder(BY_RANK)
  {
  }

  lemma {:induction false} OnePerPermutes(s: seq<Suspect>, r: seq<Suspect>)
    requires OnePer(s) && multiset(s) == multiset(r)
    ensures OnePer(r)
  {
    SameElements(s, r);
    OnePerCounts(s);
    forall i, j | 0 <= i < j < |r|
      ensures r[i].ttl != r[j].ttl
    {
      assert r[i] in s && r[j] in s;
      if r[i].ttl == r[j].ttl {
        assert r[i] == r[j];
        TwicePresent(r, i, j);
      }
    }
  }

  lemma OnePerCounts(s: seq<Suspect>)
    requires OnePer(s)
    ensures forall x :: multiset(s)[x] <= 1
    decreases s
  {
    if s != [] {
      OnePerCounts(Front(s));
      assert s == Front(s) + [Last(s)];
    }
  }

  lemma TwicePresent<T>(r: seq<T>, i: nat, j: nat)
    requires i < j < |r| && r[i] == r[j]
    ensures multiset(r)[r[i]] >= 2
  {
    assert r == r[..j] + r[j..];
    assert r[i] in r[..j];
    assert r[j..][0] == r[j];
    assert multiset(r) == multiset(r[..j]) + multiset(r[j..]);
  }

  // ------------------------------------------------------------------
  // Nothing is lost or invented by merging
  // ------------------------------------------------------------------

  ghost predicate Repeated(s: seq<Suspect>, ttl: int) {
    exists i, j :: 0 <= i < j < |s| && s[i].ttl == ttl && s[j].ttl == ttl
  }

  ghost predicate From(s: seq<Suspect>, source: Source) {
    forall i | 0 <= i < |s| :: s[i].source == source || s[i].source == Unnamed
  }

  lemma RepeatedFront(s: seq<Suspect>, ttl: int)
    requires s != []
    ensures Repeated(s, ttl) <==> Repeated(Front(s), ttl) || (Last(s).ttl == ttl && ttl in TTLs(Front(s)))
  {
    if Last(s).ttl == ttl && ttl in TTLs(Front(s)) {
      var i :| 0 <= i < |s| - 1 && Front(s)[i].ttl == ttl;
      assert s[i].ttl == ttl && s[|s| - 1].ttl == ttl;
    }
    if Repeated(Front(s), ttl) {
      var i, j :| 0 <= i < j < |s| - 1 && Front(s)[i].ttl == ttl && Front(s)[j].ttl == ttl;
      assert s[i].ttl == ttl && s[j].ttl == ttl;
    }
    if Repeated(s, ttl) {
      var i, j :| 0 <= i < j < |s| && s[i].ttl == ttl && s[j].ttl == ttl;
      assert Front(s)[i] in Front(s);
      if j < |s| - 1 {
        assert Front(s)[i].ttl == ttl && Front(s)[j].ttl == ttl;
      }
    }
  }

  /** Where every merged verdict came from. */
  lemma {:induction false} MergeSources(icmp: seq<Suspect>, tcp: seq<Suspect>, ttl: int)
    requires From(icmp, Icmp) && From(tcp, Tcp) && ttl in MergeTable(icmp, tcp)
    ensures MergeTable(icmp, tcp)[ttl].source
         == if ttl !in TTLs(tcp) then Icmp
            else if ttl in TTLs(icmp) || Repeated(tcp, ttl) then IcmpAndTcp
            else Tcp
  {
    IcmpTableMeaning(icmp);
    if tcp == [] {
    } else {
      var f := Front(tcp);
      assert From(f, Tcp);
      MergeTableKeyed(icmp, f);
      TTLsLast(tcp);
      RepeatedFront(tcp, ttl);
      if ttl in MergeTable(icmp, f) {
        MergeSources(icmp, f, ttl);
      }
    }
  }

  /** Splitting a merged list by source gives back the TCP verdicts always, and the ICMP verdicts exactly
      when no TTL that only TCP flagged was flagged twice. */
  lemma {:induction false} MergeRoundTrip(icmp: seq<Suspect>, tcp: seq<Suspect>)
    requires From(icmp, Icmp) && From(tcp, Tcp)
    ensures MarkedFor(MergeTable(icmp, tcp), Tcp) == TTLs(tcp)
    ensures MarkedFor(MergeTable(icmp, tcp), Icmp) == TTLs(icmp)
            <==> forall ttl | Repeated(tcp, ttl) :: ttl in TTLs(icmp)
  {
    hide Repeated, TTLs;
    MergeTableKeyed(icmp, tcp);
    var m := MergeTable(icmp, tcp);
    forall ttl | ttl in m
      ensures m[ttl].source == if ttl !in TTLs(tcp) then Icmp
                               else if ttl in TTLs(icmp) || Repeated(tcp, ttl) then IcmpAndTcp
                               else Tcp
    {
      MergeSources(icmp, tcp, ttl);
    }
    assert forall ttl :: ttl in MarkedFor(m, Tcp) <==> ttl in TTLs(tcp);
    forall ttl | Repeated(tcp, ttl)
      ensures ttl in TTLs(tcp)
    {
      RepeatedIsListed(tcp, ttl);
    }
    if ttl: int :| Repeated(tcp, ttl) && ttl !in TTLs(icmp) {
      assert ttl in MarkedFor(m, Icmp);
    } else {
      assert forall ttl :: ttl in MarkedFor(m, Icmp) <==> ttl in TTLs(icmp);
    }
  }

  /** A TTL that TCP alone flagged, twice, comes back as an ICMP verdict. The correlator never repeats a TTL
      of a table that does not. */
  lemma RepeatedVerdictLeaks()
    ensures var tcp := [Suspect(3, 0.9, Tcp), Suspect(3, 0.8, Tcp)];
            From(tcp, Tcp) && Repeated(tcp, 3) && 3 in MarkedFor(MergeTable([], tcp), Icmp) && TTLs([]) == {}
  {
    var s, t := Suspect(3, 0.9, Tcp), Suspect(3, 0.8, Tcp);
    var tcp := [s, t];
    assert Front(tcp) == [s] && Front([s]) == [];
    assert tcp[0].ttl == 3 && tcp[1].ttl == 3;
  }

  lemma RepeatedIsListed(s: seq<Suspect>, ttl: int)
    requires Repeated(s, ttl)
    ensures ttl in TTLs(s)
  {
    var i, j :| 0 <= i < j < |s| && s[i].ttl == ttl && s[j].ttl == ttl;
    assert s[i] in s;
  }

  /** The one verdict a source gives on a TTL, if any. */
  ghost predicate Says(s: seq<Suspect>, ttl: int, confidence: real) {
    exists i :: 0 <= i < |s| && s[i].ttl == ttl && s[i].confidence == confidence
  }

  lemma {:induction false} IcmpEntry(icmp: seq<Suspect>, ttl: int, c: real)
    requires OnePer(icmp) && Says(icmp, ttl, c)
    ensures ttl in IcmpTable(icmp) && IcmpTable(icmp)[ttl].confidence == c
  {
    var i :| 0 <= i < |icmp| && icmp[i].ttl == ttl && icmp[i].confidence == c;
    if i < |icmp| - 1 {
      assert Front(icmp)[i] == icmp[i];
      IcmpEntry(Front(icmp), ttl, c);
    }
  }

  lemma {:induction false} IcmpEntryStays(icmp: seq<Suspect>, tcp: seq<Suspect>, ttl: int)
    requires ttl !in TTLs(tcp) && ttl in IcmpTable(icmp)
    ensures ttl in MergeTable(icmp, tcp) && MergeTable(icmp, tcp)[ttl] == IcmpTable(icmp)[ttl]
  {
    if tcp != [] {
      TTLsLast(tcp);
      IcmpEntryStays(icmp, Front(tcp), ttl);
    }
  }

  /** A TTL keeps the confidence of its one verdict, and takes the greater where both sources have one. */
  lemma {:induction false} MergedConfidence(icmp: seq<Suspect>, tcp: seq<Suspect>, ttl: int, c: real, d: real)
    requires OnePer(icmp) && OnePer(tcp)
    requires ttl in TTLs(icmp) ==> Says(icmp, ttl, c)
    requires ttl in TTLs(tcp) ==> Says(tcp, ttl, d)
    requires ttl in TTLs(icmp) || ttl in TTLs(tcp)
    ensures ttl in MergeTable(icmp, tcp)
    ensures MergeTable(icmp, tcp)[ttl].confidence
         == if ttl !in TTLs(tcp) then c else if ttl !in TTLs(icmp) then d else if c >= d then c else d
  {
    if ttl in TTLs(icmp) {
      IcmpEntry(icmp, ttl, c);
    }
    if ttl !in TTLs(tcp) {
      IcmpEntryStays(icmp, tcp, ttl);
    } else {
      var f := Front(tcp);
      TTLsLast(tcp);
      if Last(tcp).ttl == ttl {
        OneLast(tcp, ttl, d);
        MergeTableKeyed(icmp, f);
        if ttl in TTLs(icmp) {
          IcmpEntryStays(icmp, f, ttl);
        }
      } else {
        SaysFront(tcp, ttl, d);
        MergedConfidence(icmp, f, ttl, c, d);
      }
    }
  }

  lemma OneLast(s: seq<Suspect>, ttl: int, d: real)
    requires s != [] && OnePer(s) && Last(s).ttl == ttl && Says(s, ttl, d)
    ensures Last(s).confidence == d && ttl !in TTLs(Front(s))
  {
  }

  lemma SaysFront(s: seq<Suspect>, ttl: int, d: real)
    requires s != [] && Last(s).ttl != ttl && Says(s, ttl, d)
    ensures Says(Front(s), ttl, d)
  {
    var i :| 0 <= i < |s| && s[i].ttl == ttl && s[i].confidence == d;
    assert Front(s)[i] == s[i];
  }
}
