/** The client-side aggregator as an object: a bucket slice and hop tables mutated in place, and
    snapshots that must not change afterwards (internal/agg/aggregator.go). */
module Aggregator {
  import opened Prelude
  import ProbeTable
  import opened AggregatorState
  import opened Timeline

  /** A hop table lives in its own backing array; a bucket starts without one. */
  type HopSlice = array?<HopView>

  datatype Bucket = Bucket(cell: Cell, hops: HopSlice, tcpHops: HopSlice)

  datatype StateSnapshot = StateSnapshot(
    t: real, stream: StreamView, buckets: array<Bucket>, hops: array<HopView>, tcpHops: array<HopView>)

  function CellsOf(bs: seq<Bucket>): (r: seq<Cell>)
    ensures |r| == |bs|
  {
    seq(|bs|, i requires 0 <= i < |bs| => bs[i].cell)
  }

  // ------------------------------------------------------------------
  // Storage: the arrays through which a write could be seen
  // ------------------------------------------------------------------

  ghost function Storage(a: HopSlice): set<object> { if a == null || a.Length == 0 then {} else {a} }

  ghost function BucketStorage(b: Bucket): set<object> { Storage(b.hops) + Storage(b.tcpHops) }

  ghost function AllStorage(bs: seq<Bucket>): set<object> {
    set i: int, x: object | 0 <= i < |bs| && x in BucketStorage(bs[i]) :: x
  }

  ghost function Contents(a: HopSlice): seq<HopView>
    reads Storage(a)
  {
    if a == null || a.Length == 0 then [] else a[..]
  }

  ghost function TablesAt(b: Bucket): Tables
    reads BucketStorage(b)
  {
    Tables(Contents(b.hops), Contents(b.tcpHops))
  }

  ghost function TablesOf(bs: seq<Bucket>): (r: seq<Tables>)
    reads AllStorage(bs)
    ensures |r| == |bs|
  {
    seq(|bs|, i requires 0 <= i < |bs| reads AllStorage(bs) => TablesAt(bs[i]))
  }

  ghost function SnapshotStorage(s: StateSnapshot): set<object>
    reads s.buckets
  {
    {s.buckets} + AllStorage(s.buckets[..]) + Storage(s.hops) + Storage(s.tcpHops)
  }

  /** What a reader of the snapshot sees now. */
  ghost function Seen(s: StateSnapshot): Shown
    reads s.buckets, SnapshotStorage(s)
  {
    Shown(s.t, s.stream, CellsOf(s.buckets[..]), TablesOf(s.buckets[..]), Contents(s.hops), Contents(s.tcpHops))
  }

  /** No two of the hop tables share storage. */
  ghost predicate Separate(bs: seq<Bucket>, hops: HopSlice, tcpHops: HopSlice) {
    && Storage(hops) !! Storage(tcpHops)
    && (forall i | 0 <= i < |bs| :: Storage(bs[i].hops) !! Storage(bs[i].tcpHops))
    && (forall i | 0 <= i < |bs| :: BucketStorage(bs[i]) !! Storage(hops) + Storage(tcpHops))
    && (forall i, j | 0 <= i < j < |bs| :: BucketStorage(bs[i]) !! BucketStorage(bs[j]))
  }

  method NewViews(stats: seq<ProbeTable.HopStat>) returns (a: array<HopView>)
    ensures fresh(a) && a.Length == |stats| && Contents(a) == Views(stats)
  {
    a := new HopView[|stats|];
    for i := 0 to |stats|
      invariant forall j | 0 <= j < i :: a[j] == HopView(stats[j], false)
    {
      a[i] := HopView(stats[i], false);
    }
  }

  method Copy(src: HopSlice) returns (a: array<HopView>)
    ensures fresh(a) && Contents(a) == Contents(src)
    ensures src != null ==> a.Length == src.Length
  {
    if src == null {
      a := new HopView[0];
      return;
    }
    a := new HopView[src.Length];
    for i := 0 to a.Length
      invariant a.Length == src.Length && fresh(a)
      invariant forall j | 0 <= j < i :: a[j] == src[j]
    {
      a[i] := src[i];
    }
  }

  /** Sets the suspect flag of every listed hop, in place. */
  method MarkInPlace(a: HopSlice, want: set<int>)
    modifies Storage(a)
    ensures Contents(a) == Marked(old(Contents(a)), want)
  {
    if a == null {
      return;
    }
    for i := 0 to a.Length
      invariant forall j | 0 <= j < i :: a[j] == Mark(old(a[j]), want)
      invariant forall j | i <= j < a.Length :: a[j] == old(a[j])
    {
      if a[i].stat.ttl in want {
        a[i] := a[i].(suspect := true);
      }
    }
  }

  method ClearInPlace(a: HopSlice)
    modifies Storage(a)
    ensures Contents(a) == Cleared(old(Contents(a)))
  {
    if a == null {
      return;
    }
    for i := 0 to a.Length
      invariant forall j | 0 <= j < i :: a[j] == old(a[j]).(suspect := false)
      invariant forall j | i <= j < a.Length :: a[j] == old(a[j])
    {
      a[i] := a[i].(suspect := false);
    }
  }

  class Aggregator {
    /** A slice: its backing array, and how much of it is in use. */
    var buckets: array<Bucket>
    var count: nat
    var hops: HopSlice
    var tcpHops: HopSlice
    var last: Option<Reading>
    var lastView: StreamView

    ghost function Items(): seq<Bucket>
      reads this, buckets
    {
      buckets[..Min(count, buckets.Length)]
    }

    ghost function Owned(): set<object>
      reads this, buckets
    {
      {buckets} + AllStorage(Items()) + Storage(hops) + Storage(tcpHops)
    }

    ghost predicate Valid()
      reads this, buckets
    {
      && count <= buckets.Length
      && Separate(Items(), hops, tcpHops) && Ascending(CellsOf(Items())) && lastView == StreamViewOf(last)
    }

    ghost function View(): State
      reads this, buckets, Owned()
    {
      State(Line(CellsOf(Items()), last), TablesOf(Items()), Contents(hops), Contents(tcpHops))
    }

    /** Nothing the aggregator may still write to can be seen through the snapshot. */
    ghost predicate Unshared(s: StateSnapshot)
      reads this, buckets, s.buckets
    {
      SnapshotStorage(s) !! Owned()
    }

    constructor ()
      ensures Valid() && View() == EMPTY && fresh(Owned())
    {
      buckets := new Bucket[0];
      count, hops, tcpHops, last, lastView := 0, null, null, None, StreamView(0, 0, 0.0);
    }

    /** append's larger array, when this one is full. */
    method Grow()
      requires count <= buckets.Length
      modifies this`buckets
      ensures count < buckets.Length && Items() == old(Items())
      ensures buckets == old(buckets) || fresh(buckets)
    {
      if count == buckets.Length {
        var grown := new Bucket[2 * count + 1];
        forall j | 0 <= j < count {
          grown[j] := buckets[j];
        }
        buckets := grown;
      }
    }

    /** Makes room at i by moving the tail up in place. */
    method InsertSlot(i: nat, b: Bucket)
      requires i <= count <= buckets.Length
      modifies this`buckets, this`count, buckets
      ensures count == old(count) + 1 <= buckets.Length && (buckets == old(buckets) || fresh(buckets))
      ensures Items() == old(Items())[..i] + [b] + old(Items())[i..]
    {
      ghost var bs := Items();
      Grow();
      forall j | i <= j < count {
        buckets[j + 1] := buckets[j];
      }
      buckets[i] := b;
      count := count + 1;
      IsPlaced(bs, Items(), i, b);
    }

    method InsertBucket(i: nat, idx: int)
      requires Valid() && i <= count
      requires i > 0 ==> buckets[i - 1].cell.t < idx
      requires i < count ==> buckets[i].cell.t > idx
      modifies this`buckets, this`count, buckets
      ensures Valid() && i < count
      ensures Owned() <= old(Owned()) + {buckets} && (buckets == old(buckets) || fresh(buckets))
      ensures Place(CellsOf(old(Items())), idx) == i
      ensures View() == Room(old(View()), idx)
    {
      hide Ascending, AllStorage, TablesOf, CellsOf, Separate, Place, Ensured, Present;
      ghost var bs := Items();
      InsertedCells(bs, i, idx);
      InsertedStorage(bs, i, idx);
      InsertedTables(bs, i, idx);
      InsertedSeparate(bs, i, idx, hops, tcpHops);
      NotStorage(bs, this, buckets);
      AllAllocated(this);
      InsertSlot(i, Bucket(Cell(idx, 0, 0, 0.0), null, null));
      assert Items() == Inserted(bs, i, idx);
    }

    /** Where the bucket of one second is or belongs: tail first, then binary search. */
    method Search(idx: int) returns (i: nat)
      requires count <= buckets.Length && Ascending(CellsOf(Items()))
      ensures i == Place(CellsOf(Items()), idx) <= count
    {
      hide Place;
      ghost var cells := CellsOf(Items());
      var n := count;
      if n == 0 || buckets[n - 1].cell.t < idx {
        PlaceUnique(cells, idx, n);
        return n;
      }
      if buckets[n - 1].cell.t == idx {
        assert n > 1 ==> cells[n - 2].t < cells[n - 1].t;
        PlaceUnique(cells, idx, n - 1);
        return n - 1;
      }
      var hi := n;
      i := 0;
      while i < hi
        invariant 0 <= i <= hi <= n
        invariant i > 0 ==> cells[i - 1].t < idx
        invariant hi < n ==> cells[hi].t >= idx
      {
        var mid := (i + hi) / 2;
        if buckets[mid].cell.t >= idx {
          hi := mid;
        } else {
          i := mid + 1;
        }
      }
      PlaceUnique(cells, idx, i);
    }

    /** Finds or inserts the bucket of one second. */
    method BucketAt(idx: int) returns (i: nat)
      requires Valid()
      modifies this`buckets, this`count, buckets
      ensures Valid() && fresh(Owned() - old(Owned()))
      ensures buckets == old(buckets) || fresh(buckets)
      ensures i == Place(old(View()).line.cells, idx) && i < count
      ensures View() == Room(old(View()), idx)
    {
      hide Separate, AllStorage, TablesOf, Place;
      AllAllocated(this);
      i := Search(idx);
      ghost var cells := CellsOf(Items());
      PlaceMeaning(cells, idx);
      assert i > 0 ==> cells[i - 1].t == buckets[i - 1].cell.t;
      assert i < count ==> cells[i].t == buckets[i].cell.t;
      if i < count && buckets[i].cell.t == idx {
        return;
      }
      InsertBucket(i, idx);
    }

    /** Takes n losses back, walking the slice from its tail. */
    method UnwindLoss(n: int)
      requires count <= buckets.Length
      modifies buckets
      ensures SameTables(Items(), old(Items()))
      ensures CellsOf(Items()) == Unwind(CellsOf(old(Items())), n)
    {
      hide Unwind, SameTables;
      ghost var was := Items();
      SameTablesRefl(was);
      if n <= 0 {
        UnwindNothing(CellsOf(was), n);
        return;
      }
      var remaining := n;
      var i := count;
      assert CellsOf(was)[..i] == CellsOf(was);
      while i > 0 && remaining > 0
        invariant 0 <= i <= count && remaining >= 0
        invariant SameTables(Items(), was)
        invariant Unwind(CellsOf(was), n) == Unwind(CellsOf(Items())[..i], remaining) + CellsOf(Items())[i..]
      {
        i := i - 1;
        var c := buckets[i].cell;
        ghost var bs := Items();
        UnwindOne(CellsOf(bs), i, remaining);
        if c.lost <= 0 {
          continue;
        }
        var lost := c.lost;
        if lost >= remaining {
          lost := lost - remaining;
          remaining := 0;
        } else {
          remaining := remaining - lost;
          lost := 0;
        }
        var total := c.recv + lost;
        SetCell(i, c.(lost := lost, lossPct := if total > 0 then lost as real / total as real * 100.0 else 0.0));
        SameTablesTrans(Items(), bs, was);
        UnwindNothing(CellsOf(Items())[..i], 0);
        assert Priced(c.(lost := lost)) == CellsOf(Items())[i];
      }
      UnwindNothing(CellsOf(Items())[..i], 0);
    }

    method IngestStream(s: Reading) returns (state: StateSnapshot)
      requires Valid()
      modifies this, buckets
      ensures Valid() && fresh(Owned() - old(Owned()))
      ensures View() == Apply(old(View()), Op.Stream(s))
      ensures Seen(state) == ShownOf(View(), s.t) && Unshared(state) && fresh(SnapshotStorage(state))
    {
      hide Valid, View, Owned, Place, Ensured, Added, SnapshotStorage, Seen;
      var bucketIdx := s.t.Floor;
      if bucketIdx < 0 {
        bucketIdx := 0;
      }
      LastOfView(this);
      var dRecv, dLost := s.recv, s.lost;
      if last.Some? {
        dRecv, dLost := s.recv - last.value.recv, s.lost - last.value.lost;
        if dRecv < 0 {
          dRecv := 0;
        }
      }
      var i := BucketAt(bucketIdx);
      Book(i, dRecv, dLost, s);
      AllAllocated(this);
      state := SnapshotOf(s.t);
    }

    method Book(i: nat, dRecv: int, dLost: int, s: Reading)
      requires Valid() && i < count
      modifies buckets, this`last, this`lastView
      ensures Valid() && Owned() == old(Owned())
      ensures View() == old(View()).(line := Line(Added(old(View()).line.cells, i, dRecv, dLost), Some(s)))
    {
      hide AllStorage, TablesOf, Separate, Ascending, Added, CellsOf, Storage, SameTables;
      ghost var placed := Items();
      NotStorage(placed, this, buckets);
      TableFrame(hops, this, buckets);
      TableFrame(tcpHops, this, buckets);
      AddReading(i, dRecv, dLost);
      SameTablesShare(Items(), placed, hops, tcpHops);
      AddedTimes(CellsOf(placed), i, dRecv, dLost);
      last := Some(s);
      lastView := StreamViewOf(last);
    }

    /** Books one reading's deltas on its bucket. */
    method AddReading(i: nat, dRecv: int, dLost: int)
      requires i < count <= buckets.Length
      modifies buckets
      ensures SameTables(Items(), old(Items()))
      ensures CellsOf(Items()) == Added(CellsOf(old(Items())), i, dRecv, dLost)
    {
      hide Unwind;
      SetCell(i, buckets[i].cell.(recv := buckets[i].cell.recv + dRecv));
      if dLost >= 0 {
        SetCell(i, buckets[i].cell.(lost := buckets[i].cell.lost + dLost));
      } else {
        UnwindLoss(-dLost);
      }
      var c := buckets[i].cell;
      var total := c.recv + c.lost;
      SetCell(i, c.(lossPct := if total > 0 then c.lost as real / total as real * 100.0 else 0.0));
    }

    /** Writes the stream side of one bucket through its pointer. */
    method SetCell(i: nat, c: Cell)
      requires i < count <= buckets.Length
      modifies buckets
      ensures SameTables(Items(), old(Items()))
      ensures CellsOf(Items()) == CellsOf(old(Items()))[i := c]
      ensures buckets[i].cell == c
    {
      buckets[i] := buckets[i].(cell := c);
    }

    /** The snapshot of the current state: the bucket slice and every hop table that holds a row are copied. */
    method SnapshotOf(t: real) returns (s: StateSnapshot)
      requires Valid()
      ensures Seen(s) == ShownOf(View(), t) && Unshared(s) && fresh(SnapshotStorage(s))
    {
      hide AllStorage, TablesOf, Separate, Ascending, CellsOf;
      NotStorage(Items(), this, buckets);
      AllAllocated(this);
      var copies := CopyBuckets();
      NotStorage(copies[..], this, copies);
      var hopsCopy := Copy(hops);
      var tcpHopsCopy := Copy(tcpHops);
      s := StateSnapshot(t, lastView, copies, hopsCopy, tcpHopsCopy);
    }

    method CopyBuckets() returns (out: array<Bucket>)
      requires count <= buckets.Length
      ensures fresh(out) && fresh(AllStorage(out[..]))
      ensures CellsOf(out[..]) == CellsOf(Items()) && TablesOf(out[..]) == TablesOf(Items())
    {
      hide TablesAt, BucketStorage;
      ghost var bs := Items();
      StorageWithin(bs);
      out := new Bucket[count];
      for i := 0 to count
        invariant fresh(out) && out.Length == count
        invariant forall j | 0 <= j < i ::
            out[j].cell == bs[j].cell && TablesAt(out[j]) == TablesAt(bs[j]) && fresh(BucketStorage(out[j]))
        invariant forall j, o | 0 <= j < i && o in BucketStorage(out[j]) :: allocated(o)
      {
        assert buckets[i] == bs[i];
        var bc := CopyBucket(buckets[i]);
        SlicesAreApart(out);
        out[i] := bc;
      }
    }

    method CopyBucket(b: Bucket) returns (bc: Bucket)
      ensures bc.cell == b.cell && TablesAt(bc) == TablesAt(b) && fresh(BucketStorage(bc))
      ensures forall o | o in BucketStorage(bc) :: allocated(o)
    {
      bc := b;
      if bc.hops != null && bc.hops.Length > 0 {
        var h := Copy(bc.hops);
        bc := bc.(hops := h);
      }
      if bc.tcpHops != null && bc.tcpHops.Length > 0 {
        var h := Copy(bc.tcpHops);
        bc := bc.(tcpHops := h);
      }
    }

    /** Replaces the live table with a new one. */
    method SetLive(stats: seq<ProbeTable.HopStat>)
      requires Valid()
      modifies this`hops
      ensures Valid() && fresh(Owned() - old(Owned()))
      ensures View() == old(View()).(hops := Views(stats))
    {
      hide AllStorage, TablesOf, Separate, Ascending, CellsOf, Storage;
      AllAllocated(this);
      var live := NewViews(stats);
      StorageIs(live);
      SeparateLive(Items(), hops, tcpHops, live);
      hops := live;
    }

    method SetLiveTcp(stats: seq<ProbeTable.HopStat>)
      requires Valid()
      modifies this`tcpHops
      ensures Valid() && fresh(Owned() - old(Owned()))
      ensures View() == old(View()).(tcpHops := Views(stats))
    {
      hide AllStorage, TablesOf, Separate, Ascending, CellsOf, Storage;
      AllAllocated(this);
      var live := NewViews(stats);
      StorageIs(live);
      SeparateLive(Items(), hops, tcpHops, live);
      tcpHops := live;
    }

    /** Files a copy of the live table under one bucket. */
    method FileLive(i: nat)
      requires Valid() && i < count
      modifies buckets
      ensures Valid() && fresh(Owned() - old(Owned()))
      ensures View() == old(View()).(tables := old(View()).tables[
                            i := old(View()).tables[i].(icmp := old(View()).hops)])
    {
      hide AllStorage, TablesOf, Separate, Ascending, CellsOf, Storage;
      AllAllocated(this);
      var filed := Copy(hops);
      StorageIs(filed);
      ghost var bs := Items();
      SeparateTable(bs, hops, tcpHops, i, filed);
      NotStorage(bs[i := bs[i].(hops := filed)], this, buckets);
      TableFrame(hops, this, buckets);
      TableFrame(tcpHops, this, buckets);
      SetCopy(bs, i, filed);
      buckets[i] := buckets[i].(hops := filed);
      assert Items() == bs[i := bs[i].(hops := filed)];
    }

    method FileLiveTcp(i: nat)
      requires Valid() && i < count
      modifies buckets
      ensures Valid() && fresh(Owned() - old(Owned()))
      ensures View() == old(View()).(tables := old(View()).tables[
                            i := old(View()).tables[i].(tcp := old(View()).tcpHops)])
    {
      hide AllStorage, TablesOf, Separate, Ascending, CellsOf, Storage;
      AllAllocated(this);
      var filed := Copy(tcpHops);
      StorageIs(filed);
      ghost var bs := Items();
      SeparateTable(bs, hops, tcpHops, i, filed);
      NotStorage(bs[i := bs[i].(tcpHops := filed)], this, buckets);
      TableFrame(hops, this, buckets);
      TableFrame(tcpHops, this, buckets);
      SetCopy(bs, i, filed);
      buckets[i] := buckets[i].(tcpHops := filed);
      assert Items() == bs[i := bs[i].(tcpHops := filed)];
    }

    method IngestForwardHop(elapsed: real, stats: seq<ProbeTable.HopStat>) returns (state: StateSnapshot)
      requires Valid()
      modifies this, buckets
      ensures Valid() && fresh(Owned() - old(Owned()))
      ensures View() == Apply(old(View()), ForwardHop(elapsed, stats))
      ensures Seen(state) == ShownOf(View(), elapsed) && Unshared(state) && fresh(SnapshotStorage(state))
    {
      hide Valid, View, Owned, Place, Ensured, Views, SnapshotStorage, Seen;
      SetLive(stats);
      var bucketIdx := elapsed.Floor;
      if bucketIdx < 0 {
        bucketIdx := 0;
      }
      var i := BucketAt(bucketIdx);
      FileLive(i);
      AllAllocated(this);
      state := SnapshotOf(elapsed);
    }

    method IngestForwardTcpHop(elapsed: real, stats: seq<ProbeTable.HopStat>) returns (state: StateSnapshot)
      requires Valid()
      modifies this, buckets
      ensures Valid() && fresh(Owned() - old(Owned()))
      ensures View() == Apply(old(View()), ForwardTcpHop(elapsed, stats))
      ensures Seen(state) == ShownOf(View(), LastT(View().line.last))
      ensures Unshared(state) && fresh(SnapshotStorage(state))
    {
      hide Valid, View, Owned, Place, Ensured, SnapshotStorage, Seen;
      SetLiveTcp(stats);
      assert stats == [] ==> Views(stats) == [];
      if |stats| > 0 {
        var bucketIdx := elapsed.Floor;
        if bucketIdx < 0 {
          bucketIdx := 0;
        }
        var i := BucketAt(bucketIdx);
        FileLiveTcp(i);
      }
      LastOfView(this);
      AllAllocated(this);
      state := SnapshotOf(if last == None then 0.0 else last.value.t);
    }

    method MarkSuspects(ttls: set<int>) returns (state: Option<StateSnapshot>)
      requires Valid()
      modifies Owned()
      ensures Valid() && Owned() == old(Owned())
      ensures View() == Apply(old(View()), Op.MarkSuspects(ttls))
      ensures state == None <==> ttls == {}
      ensures state.Some? ==>
                Seen(state.value) == ShownOf(View(), LastT(View().line.last)) && Unshared(state.value)
                && fresh(SnapshotStorage(state.value))
    {
      hide Separate, AllStorage, CellsOf, Seen, SnapshotStorage, Storage, TablesOf, Contents;
      hide MarkedIcmp, MarkedTcp, Marked;
      ghost var bs := Items();
      assert buckets[..count] == bs;
      SeparateMeans(bs, hops, tcpHops);
      NotStorage(bs, this, buckets);
      TableFrame(hops, this, buckets);
      TableFrame(tcpHops, this, buckets);
      AllAllocated(this);
      if ttls == {} {
        MarkNone(View());
        return None;
      }
      MarkInPlace(hops, ttls);
      MarkBuckets(buckets[..count], ttls);
      var s := SnapshotOf(if last == None then 0.0 else last.value.t);
      state := Some(s);
    }

    method MarkTcpSuspects(ttls: set<int>) returns (state: Option<StateSnapshot>)
      requires Valid()
      modifies Owned()
      ensures Valid() && Owned() == old(Owned())
      ensures View() == Apply(old(View()), Op.MarkTcpSuspects(ttls))
      ensures state == None <==> ttls == {}
      ensures state.Some? ==>
                Seen(state.value) == ShownOf(View(), LastT(View().line.last)) && Unshared(state.value)
                && fresh(SnapshotStorage(state.value))
    {
      hide Separate, AllStorage, CellsOf, Seen, SnapshotStorage, Storage, TablesOf, Contents;
      hide MarkedIcmp, MarkedTcp, Marked;
      ghost var bs := Items();
      assert buckets[..count] == bs;
      SeparateMeans(bs, hops, tcpHops);
      NotStorage(bs, this, buckets);
      TableFrame(hops, this, buckets);
      TableFrame(tcpHops, this, buckets);
      AllAllocated(this);
      if ttls == {} {
        MarkNone(View());
        return None;
      }
      MarkInPlace(tcpHops, ttls);
      MarkTcpBuckets(buckets[..count], ttls);
      var s := SnapshotOf(if last == None then 0.0 else last.value.t);
      state := Some(s);
    }

    method DropBuckets()
      requires Valid()
      modifies this`buckets, this`count
      ensures Valid() && fresh(Owned() - old(Owned()))
      ensures View() == old(View()).(line := Line([], last), tables := [])
    {
      hide Separate, AllStorage, CellsOf, Storage, TablesOf, Contents;
      SeparateMeans(Items(), hops, tcpHops);
      TableFrame(hops, this, buckets);
      TableFrame(tcpHops, this, buckets);
      NoBuckets(hops, tcpHops);
      AllAllocated(this);
      buckets := new Bucket[0];
      count := 0;
      assert Items() == [];
    }

    /** Clears the verdicts in the live tables, in place. */
    method ClearLive()
      requires Valid()
      modifies Storage(hops), Storage(tcpHops)
      ensures Valid() && Owned() == old(Owned())
      ensures View() == old(View()).(hops := Cleared(old(View()).hops), tcpHops := Cleared(old(View()).tcpHops))
    {
      hide Separate, AllStorage, CellsOf, Cleared, Storage, TablesOf, Contents;
      SeparateMeans(Items(), hops, tcpHops);
      NotStorage(Items(), this, buckets);
      TableFrame(hops, this, buckets);
      TableFrame(tcpHops, this, buckets);
      ClearInPlace(hops);
      ClearInPlace(tcpHops);
    }

    /** Drops the history; the live tables stay, without their verdicts. */
    method Reset() returns (state: StateSnapshot)
      requires Valid()
      modifies this`buckets, this`count, Storage(hops), Storage(tcpHops)
      ensures Valid() && fresh(Owned() - old(Owned()))
      ensures View() == Apply(old(View()), Op.Reset)
      ensures Seen(state) == ShownOf(View(), LastT(View().line.last))
      ensures Unshared(state) && fresh(SnapshotStorage(state))
    {
      hide Valid, View, Owned, Seen, SnapshotStorage, Cleared;
      LastOfView(this);
      DropBuckets();
      ClearLive();
      LastOfView(this);
      AllAllocated(this);
      state := SnapshotOf(if last == None then 0.0 else last.value.t);
    }
  }

  ghost predicate BucketsSeparate(bs: seq<Bucket>) {
    && (forall i, j | 0 <= i < |bs| && 0 <= j < |bs| && i != j :: BucketStorage(bs[i]) !! BucketStorage(bs[j]))
    && (forall i | 0 <= i < |bs| :: Storage(bs[i].hops) !! Storage(bs[i].tcpHops))
  }

  lemma StorageWithin(bs: seq<Bucket>)
    ensures forall i | 0 <= i < |bs| :: BucketStorage(bs[i]) <= AllStorage(bs)
    ensures forall i, o | 0 <= i < |bs| && o in BucketStorage(bs[i]) :: allocated(o)
  {
  }

  /** Marks the ICMP table of every bucket. */
  method MarkBuckets(bs: seq<Bucket>, want: set<int>)
    requires BucketsSeparate(bs)
    modifies AllStorage(bs)
    ensures TablesOf(bs) == MarkedIcmp(old(TablesOf(bs)), want)
  {
    hide AllStorage, Storage, Contents, Marked;
    StorageWithin(bs);
    for bi := 0 to |bs|
      invariant forall j | 0 <= j < bi ::
          TablesAt(bs[j]) == old(TablesAt(bs[j])).(icmp := Marked(old(TablesAt(bs[j])).icmp, want))
      invariant forall j | bi <= j < |bs| :: TablesAt(bs[j]) == old(TablesAt(bs[j]))
    {
      MarkInPlace(bs[bi].hops, want);
    }
  }

  method MarkTcpBuckets(bs: seq<Bucket>, want: set<int>)
    requires BucketsSeparate(bs)
    modifies AllStorage(bs)
    ensures TablesOf(bs) == MarkedTcp(old(TablesOf(bs)), want)
  {
    hide AllStorage, Storage, Contents, Marked;
    StorageWithin(bs);
    for bi := 0 to |bs|
      invariant forall j | 0 <= j < bi ::
          TablesAt(bs[j]) == old(TablesAt(bs[j])).(tcp := Marked(old(TablesAt(bs[j])).tcp, want))
      invariant forall j | bi <= j < |bs| :: TablesAt(bs[j]) == old(TablesAt(bs[j]))
    {
      MarkInPlace(bs[bi].tcpHops, want);
    }
  }

  lemma SeparateMeans(bs: seq<Bucket>, hops: HopSlice, tcpHops: HopSlice)
    requires Separate(bs, hops, tcpHops)
    ensures BucketsSeparate(bs) && Storage(hops) !! Storage(tcpHops)
    ensures AllStorage(bs) !! Storage(hops) + Storage(tcpHops)
  {
  }

  lemma LastOfView(a: Aggregator)
    ensures a.View().line.last == a.last
  {
  }

  lemma AllAllocated(a: Aggregator)
    ensures forall o | o in a.Owned() :: allocated(o)
    ensures a !in a.Owned()
  {
  }

  lemma SlicesAreApart(b: array<Bucket>)
    ensures forall x: Bucket :: b !in BucketStorage(x)
  {
  }

  lemma TableFrame(h: HopSlice, a: Aggregator, b: array<Bucket>)
    ensures a !in Storage(h) && b !in Storage(h)
    ensures forall o | o in Storage(h) :: allocated(o)
  {
  }

  lemma NoBuckets(hops: HopSlice, tcpHops: HopSlice)
    ensures CellsOf([]) == [] && Ascending([]) && AllStorage([]) == {} && TablesOf([]) == []
    ensures Storage(hops) !! Storage(tcpHops) ==> Separate([], hops, tcpHops)
  {
  }

  lemma StorageIs(a: HopSlice)
    ensures forall o | o in Storage(a) :: o == a
  {
  }

  lemma SeparateLive(bs: seq<Bucket>, hops: HopSlice, tcpHops: HopSlice, live: HopSlice)
    requires Separate(bs, hops, tcpHops)
    requires Storage(live) !! AllStorage(bs) + Storage(hops) + Storage(tcpHops)
    ensures Separate(bs, live, tcpHops) && Separate(bs, hops, live)
  {
    hide BucketStorage, Storage;
  }

  lemma SeparateTable(bs: seq<Bucket>, hops: HopSlice, tcpHops: HopSlice, i: nat, table: HopSlice)
    requires i < |bs| && Separate(bs, hops, tcpHops)
    requires Storage(table) !! AllStorage(bs) + Storage(hops) + Storage(tcpHops)
    ensures Separate(bs[i := bs[i].(hops := table)], hops, tcpHops)
    ensures Separate(bs[i := bs[i].(tcpHops := table)], hops, tcpHops)
  {
    hide Storage;
  }

  lemma SetStorage(bs: seq<Bucket>, i: nat, b: Bucket)
    requires i < |bs|
    ensures AllStorage(bs[i := b]) <= AllStorage(bs) + BucketStorage(b)
    ensures BucketStorage(bs[i]) <= AllStorage(bs)
  {
    hide BucketStorage;
    var r := bs[i := b];
    forall x: object | x in AllStorage(r)
      ensures x in AllStorage(bs) + BucketStorage(b)
    {
      var j: int :| 0 <= j < |r| && x in BucketStorage(r[j]);
      assert j != i ==> x in BucketStorage(bs[j]);
    }
  }

  lemma SetCopy(bs: seq<Bucket>, i: nat, table: HopSlice)
    requires i < |bs|
    ensures var r := bs[i := bs[i].(hops := table)];
            && CellsOf(r) == CellsOf(bs) && AllStorage(r) <= AllStorage(bs) + Storage(table)
            && TablesOf(r) == TablesOf(bs)[i := TablesOf(bs)[i].(icmp := Contents(table))]
    ensures var r := bs[i := bs[i].(tcpHops := table)];
            && CellsOf(r) == CellsOf(bs) && AllStorage(r) <= AllStorage(bs) + Storage(table)
            && TablesOf(r) == TablesOf(bs)[i := TablesOf(bs)[i].(tcp := Contents(table))]
  {
    hide Storage;
    SetStorage(bs, i, bs[i].(hops := table));
    SetStorage(bs, i, bs[i].(tcpHops := table));
  }

  /** The same hop tables in the same places, whatever the stream side says. */
  ghost predicate SameTables(bs: seq<Bucket>, cs: seq<Bucket>) {
    |bs| == |cs| && forall i | 0 <= i < |bs| :: bs[i].hops == cs[i].hops && bs[i].tcpHops == cs[i].tcpHops
  }

  lemma SameTablesShare(bs: seq<Bucket>, cs: seq<Bucket>, hops: HopSlice, tcpHops: HopSlice)
    requires SameTables(bs, cs)
    ensures AllStorage(bs) == AllStorage(cs) && TablesOf(bs) == TablesOf(cs)
    ensures Separate(bs, hops, tcpHops) <==> Separate(cs, hops, tcpHops)
  {
    forall i | 0 <= i < |bs|
      ensures BucketStorage(bs[i]) == BucketStorage(cs[i])
    {
    }
  }

  lemma SameTablesRefl(bs: seq<Bucket>)
    ensures SameTables(bs, bs)
  {
  }

  lemma SameTablesTrans(bs: seq<Bucket>, cs: seq<Bucket>, ds: seq<Bucket>)
    requires SameTables(bs, cs) && SameTables(cs, ds)
    ensures SameTables(bs, ds)
  {
  }

  lemma UnwindOne(cells: seq<Cell>, i: nat, remaining: int)
    requires i < |cells| && remaining > 0
    ensures var c := cells[i];
            Unwind(cells[..i + 1], remaining) + cells[i + 1..]
            == if c.lost <= 0 then Unwind(cells[..i], remaining) + cells[i..]
               else if c.lost >= remaining then cells[i := Priced(c.(lost := c.lost - remaining))]
               else Unwind(cells[..i], remaining - c.lost) + cells[i := Priced(c.(lost := 0))][i..]
  {
    hide Percent;
    assert Front(cells[..i + 1]) == cells[..i];
  }

  function Inserted(bs: seq<Bucket>, i: nat, idx: int): seq<Bucket>
    requires i <= |bs|
  {
    bs[..i] + [Bucket(Cell(idx, 0, 0, 0.0), null, null)] + bs[i..]
  }

  /** Where each bucket of the longer slice came from. */
  lemma InsertedAt(bs: seq<Bucket>, i: nat, idx: int)
    requires i <= |bs|
    ensures var r := Inserted(bs, i, idx);
            && |r| == |bs| + 1
            && r[i].cell == Cell(idx, 0, 0, 0.0) && BucketStorage(r[i]) == {}
            && Storage(r[i].hops) == {} && Storage(r[i].tcpHops) == {}
            && (forall j | 0 <= j < |r| && j != i :: r[j] == bs[if j < i then j else j - 1])
            && (forall j | 0 <= j < |bs| :: bs[j] == r[if j < i then j else j + 1])
  {
    var b := Bucket(Cell(idx, 0, 0, 0.0), null, null);
    assert BucketStorage(b) == {} && Storage(b.hops) == {} && Storage(b.tcpHops) == {};
    hide BucketStorage, Storage;
    PlacedAt(bs, i, b);
  }

  /** Hop tables are stored neither in the aggregator nor in a bucket slice. */
  lemma NotStorage(bs: seq<Bucket>, a: Aggregator, b: array<Bucket>)
    ensures a !in AllStorage(bs) && b !in AllStorage(bs)
    ensures forall o | o in AllStorage(bs) :: allocated(o)
  {
  }

  lemma InsertedStorage(bs: seq<Bucket>, i: nat, idx: int)
    requires i <= |bs|
    ensures AllStorage(Inserted(bs, i, idx)) == AllStorage(bs)
  {
    hide BucketStorage, Inserted;
    InsertedAt(bs, i, idx);
    var r := Inserted(bs, i, idx);
    forall x: object
      ensures x in AllStorage(r) <==> x in AllStorage(bs)
    {
      if j: int :| 0 <= j < |bs| && x in BucketStorage(bs[j]) {
        assert x in BucketStorage(r[if j < i then j else j + 1]);
      }
    }
  }

  lemma InsertedSeparate(bs: seq<Bucket>, i: nat, idx: int, hops: HopSlice, tcpHops: HopSlice)
    requires i <= |bs| && Separate(bs, hops, tcpHops)
    ensures Separate(Inserted(bs, i, idx), hops, tcpHops)
  {
    hide BucketStorage, Storage, Inserted;
    InsertedAt(bs, i, idx);
  }

  lemma InsertedTables(bs: seq<Bucket>, i: nat, idx: int)
    requires i <= |bs|
    ensures TablesOf(Inserted(bs, i, idx)) == TablesOf(bs)[..i] + [Tables([], [])] + TablesOf(bs)[i..]
  {
    InsertedAt(bs, i, idx);
  }

  lemma InsertedCells(bs: seq<Bucket>, i: nat, idx: int)
    requires i <= |bs| && Ascending(CellsOf(bs))
    requires i > 0 ==> bs[i - 1].cell.t < idx
    requires i < |bs| ==> bs[i].cell.t > idx
    ensures Place(CellsOf(bs), idx) == i && !Present(CellsOf(bs), idx)
    ensures var c := CellsOf(Inserted(bs, i, idx));
            c == Ensured(CellsOf(bs), idx) && Ascending(c)
  {
    hide Place, Ascending;
    var cells := CellsOf(bs);
    PlaceUnique(cells, idx, i);
    EnsuredAscends(cells, idx);
    assert CellsOf(Inserted(bs, i, idx)) == cells[..i] + [Cell(idx, 0, 0, 0.0)] + cells[i..];
  }

  /** One operation on the aggregator. */
  method Do(agg: Aggregator, op: Op) returns (state: Option<StateSnapshot>)
    requires agg.Valid()
    modifies agg, agg.Owned()
    ensures agg.Valid() && fresh(agg.Owned() - old(agg.Owned()))
    ensures agg.View() == Apply(old(agg.View()), op)
    ensures Published(old(agg.View()), op) == if state == None then None else Some(Seen(state.value))
    ensures state.Some? ==> agg.Unshared(state.value) && fresh(SnapshotStorage(state.value))
  {
    hide Apply, Seen, SnapshotStorage, AllStorage, Storage, Aggregator.Valid, Aggregator.View;
    match op
    case Stream(s) =>
      var shown := agg.IngestStream(s);
      state := Some(shown);
    case ForwardHop(elapsed, stats) =>
      var shown := agg.IngestForwardHop(elapsed, stats);
      state := Some(shown);
    case ForwardTcpHop(elapsed, stats) =>
      var shown := agg.IngestForwardTcpHop(elapsed, stats);
      state := Some(shown);
    case MarkSuspects(ttls) => state := agg.MarkSuspects(ttls);
    case MarkTcpSuspects(ttls) => state := agg.MarkTcpSuspects(ttls);
    case Reset =>
      var shown := agg.Reset();
      state := Some(shown);
  }

  /** What a retained snapshot must still show after everything that followed it. */
  ghost predicate StillShows(ops: seq<Op>, k: nat, state: Option<StateSnapshot>)
    requires k < |ops|
    reads if state.Some? then {state.value.buckets} else {}
    reads if state.Some? then SnapshotStorage(state.value) else {}
  {
    Published(ApplyAll(ops[..k]), ops[k]) == if state == None then None else Some(Seen(state.value))
  }

  lemma StatesAllocated(states: seq<Option<StateSnapshot>>, agg: Aggregator)
    ensures forall k, o | 0 <= k < |states| && states[k].Some? && o in SnapshotStorage(states[k].value) ::
              allocated(o) && o != agg
    ensures forall k | 0 <= k < |states| && states[k].Some? ::
              states[k].value.buckets in SnapshotStorage(states[k].value)
  {
  }

  /** Any run at all: read at the very end, every snapshot ever published still shows exactly the state
      of its own moment, and nothing the aggregator holds shares storage with any of them. */
  method Session(ops: seq<Op>) returns (agg: Aggregator, states: seq<Option<StateSnapshot>>)
    ensures fresh(agg) && agg.Valid() && agg.View() == ApplyAll(ops)
    ensures |states| == |ops| && forall k | 0 <= k < |ops| :: StillShows(ops, k, states[k])
    ensures forall k | 0 <= k < |ops| && states[k].Some? :: agg.Unshared(states[k].value)
  {
    hide Apply, Published, Seen, SnapshotStorage, AllStorage, Storage;
    hide Aggregator.Valid, Aggregator.View, Aggregator.Owned;
    agg := new Aggregator();
    states := [];
    assert ops[..0] == [];
    for i := 0 to |ops|
      invariant |states| == i && fresh(agg) && agg.Valid() && fresh(agg.Owned()) && agg.View() == ApplyAll(ops[..i])
      invariant forall k | 0 <= k < i :: StillShows(ops, k, states[k])
      invariant forall k | 0 <= k < i && states[k].Some? :: agg.Unshared(states[k].value)
    {
      AllAllocated(agg);
      StatesAllocated(states, agg);
      ghost var before := agg.Owned();
      label L: var state := Do(agg, ops[i]);
      forall o | o in agg.Owned()
        ensures fresh(o)
      {
        assert o in before || fresh@L(o);
      }
      assert Front(ops[..i + 1]) == ops[..i] && Last(ops[..i + 1]) == ops[i];
      states := states + [state];
    }
    assert ops[..|ops|] == ops;
  }
}
