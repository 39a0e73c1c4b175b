/** The two probers as objects: each method is one critical section and follows the protocol's step
    (internal/probe/probe_unix.go, probe_tcp_unix.go). */
module Probers {
  import opened Prelude
  import opened ProbeTable
  import ProbeBook
  import IcmpSweep
  import PortAllocator
  import TcpSweep

  class IcmpProber {
    const interval: int
    var nextSeq: Uint16
    const book: ProbeBook.Book

    /** This object is in the protocol state m. */
    ghost predicate Is(m: IcmpSweep.Prober)
      reads this, book, book.hops
    {
      book.Valid() && m.interval == interval && m.nextSeq == nextSeq && m.table == book.View()
    }

    constructor (interval: int, book: ProbeBook.Book)
      ensures this.interval == interval && this.book == book && nextSeq == 1
    {
      this.interval := interval;
      this.book := book;
      nextSeq := 1;
    }

    /** The locked part of send. */
    method Send(ttl: int, now: int, ghost m: IcmpSweep.Prober) returns (seqNo: Uint16)
      requires Is(m) && IcmpSweep.Enabled(m, IcmpSweep.Send(now)) && m.phase.next == ttl
      modifies this`nextSeq, book`inflight, book.hops
      ensures Is(IcmpSweep.Step(m, IcmpSweep.Send(now))) && seqNo == old(nextSeq)
    {
      seqNo := nextSeq;
      nextSeq := (nextSeq + 1) % 0x1_0000;
      if nextSeq == 0 {
        nextSeq := 1;
      }
      book.Enlist(seqNo, ttl, now);
    }

    /** The locked part of recvLoop. */
    method Receive(seqNo: Uint16, src: Option<nat>, now: int, echo: bool, ghost m: IcmpSweep.Prober)
      requires Is(m)
      modifies book`inflight, book`terminus, book.hops
      ensures Is(IcmpSweep.Step(m, IcmpSweep.Answer(seqNo, src, now, echo)))
    {
      book.Reply(seqNo, src, now, echo);
    }

    /** Ages out, then publishes. */
    method Emit(now: int, ghost m: IcmpSweep.Prober) returns (snap: seq<HopStat>)
      requires Is(m) && IcmpSweep.Enabled(m, IcmpSweep.Emit(now)) && 0 <= m.table.terminus <= |m.table.hops|
      modifies book`inflight, book.hops
      ensures Is(IcmpSweep.Step(m, IcmpSweep.Emit(now)))
      ensures snap == BuildSnapshot(IcmpSweep.Step(m, IcmpSweep.Emit(now)).table)
    {
      hide StatsUpTo, Live, Stale, BuildSnapshot;
      book.PruneInflight(now - LossTimeout(interval));
      snap := book.Snapshot();
    }
  }

  class TcpProber {
    const slice: PortAllocator.Slice
    var portCursor: Uint32
    const book: ProbeBook.Book

    ghost predicate Is(m: TcpSweep.Prober)
      reads this, book, book.hops
    {
      && book.Valid() && TcpSweep.WellFormed(m)
      && m.slice == slice && m.cursor == portCursor && m.table == book.View()
    }

    constructor (slice: PortAllocator.Slice, book: ProbeBook.Book)
      ensures this.slice == slice && this.book == book && portCursor == 0
    {
      this.slice := slice;
      this.book := book;
      portCursor := 0;
    }

    /** Walks at most one whole turn of the range. */
    method NextSrcPort() returns (port: Option<Uint16>)
      requires slice.Valid()
      modifies this`portCursor
      ensures PortAllocator.Found(port, portCursor)
              == PortAllocator.NextSrcPort(slice, old(portCursor), book.inflight.Keys, slice.range)
    {
      for tried := 0 to slice.range
        invariant PortAllocator.NextSrcPort(slice, old(portCursor), book.inflight.Keys, slice.range)
               == PortAllocator.NextSrcPort(slice, portCursor, book.inflight.Keys, slice.range - tried)
      {
        var candidate: Uint16 := slice.base + portCursor % slice.range;
        portCursor := (portCursor + 1) % TWO_TO_THE_32;
        if candidate !in book.inflight {
          return Some(candidate);
        }
      }
      return None;
    }

    /** First critical section of probe. */
    method Allocate(ttl: int, ghost m: TcpSweep.Prober) returns (port: Option<Uint16>)
      requires Is(m) && TcpSweep.StageOf(m, ttl).Waiting?
      modifies this`portCursor
      ensures var u := TcpSweep.Step(m, TcpSweep.Allocate(ttl));
              && Is(u)
              && TcpSweep.StageOf(u, ttl) == if port == None then TcpSweep.Done else TcpSweep.Allocated(port.value)
    {
      port := NextSrcPort();
    }

    /** Second critical section of probe. */
    method Enlist(port: Uint16, ttl: int, now: int, ghost m: TcpSweep.Prober)
      requires Is(m) && TcpSweep.StageOf(m, ttl) == TcpSweep.Allocated(port)
      modifies book`inflight, book.hops
      ensures Is(TcpSweep.Step(m, TcpSweep.Enlist(ttl, now)))
    {
      book.Enlist(port, ttl, now);
    }

    /** The dialer times the handshake from the moment it took before registering. */
    method RecordTerminus(
        port: Uint16, ttl: int, sentAt: int, src: Option<nat>, now: int, ghost m: TcpSweep.Prober)
      requires Is(m) && TcpSweep.StageOf(m, ttl) == TcpSweep.Registered(port, sentAt)
      modifies book`inflight, book`terminus, book.hops
      ensures Is(TcpSweep.Step(m, TcpSweep.Reach(ttl, src, now)))
    {
      var rtt := (now - sentAt) as real / 1_000_000.0;
      book.RecordTerminus(port, ttl, src, rtt);
    }

    method RollbackProbe(port: Uint16, ttl: int, ghost m: TcpSweep.Prober)
      requires Is(m) && TcpSweep.StageOf(m, ttl).Registered? && TcpSweep.StageOf(m, ttl).port == port
      modifies book`inflight, book.hops
      ensures Is(TcpSweep.Step(m, TcpSweep.Fail(ttl)))
    {
      book.RollbackProbe(port, ttl);
    }

    method Receive(port: Uint16, src: Option<nat>, now: int, ghost m: TcpSweep.Prober)
      requires Is(m)
      modifies book`inflight, book`terminus, book.hops
      ensures Is(TcpSweep.Step(m, TcpSweep.TimeExceeded(port, src, now)))
    {
      book.Reply(port, src, now, false);
    }

    method Emit(now: int, interval: int, ghost m: TcpSweep.Prober) returns (snap: seq<HopStat>)
      requires Is(m) && 0 <= m.table.terminus <= |m.table.hops|
      modifies book`inflight, book.hops
      ensures var u := TcpSweep.Step(m, TcpSweep.AgeOut(now - LossTimeout(interval)));
              Is(u) && 0 <= u.table.terminus <= |u.table.hops| && snap == BuildSnapshot(u.table)
    {
      hide StatsUpTo, Live, Stale, BuildSnapshot;
      book.PruneInflight(now - LossTimeout(interval));
      snap := book.Snapshot();
    }
  }
}
