/** Length-prefixed frames and the mutex under which several senders write them
    (internal/control/framing.go, client.go). */
module Framing {
  import opened Prelude

  const MAX_FRAME_SIZE: nat := 0x1_0000
  const HEADER_SIZE: nat := 4

  type Byte = x: int | 0 <= x < 256

  /** The four bytes of a length, most significant first. */
  function Header(n: nat): (h: seq<Byte>)
    requires n < TWO_TO_THE_32
    ensures |h| == HEADER_SIZE
  {
    var q := n / 256;
    var r := q / 256;
    [r / 256, r % 256, q % 256, n % 256]
  }

  function Length(h: seq<Byte>): (n: nat)
    requires |h| == HEADER_SIZE
    ensures n < TWO_TO_THE_32
  {
    var a: int, b: int, c: int, d: int := h[0], h[1], h[2], h[3];
    ((a * 256 + b) * 256 + c) * 256 + d
  }

  function Frame(payload: seq<Byte>): seq<Byte>
    requires |payload| <= MAX_FRAME_SIZE
  {
    Header(|payload|) + payload
  }

  datatype ReadResult = Payload(payload: seq<Byte>) | ShortHeader | TooLarge | ShortPayload

  /** What one ReadFrame returns from the bytes that will ever arrive, and how many it consumes. */
  function Read(s: seq<Byte>): ReadResult {
    if |s| < HEADER_SIZE then ShortHeader
    else
      var n := Length(s[..HEADER_SIZE]);
      if n > MAX_FRAME_SIZE then TooLarge
      else if |s| < HEADER_SIZE + n then ShortPayload
      else Payload(s[HEADER_SIZE..HEADER_SIZE + n])
  }

  function Consumed(s: seq<Byte>): (n: nat)
    ensures n <= |s|
  {
    match Read(s)
    case Payload(p) => HEADER_SIZE + |p|
    case TooLarge => HEADER_SIZE
    case _ => |s|
  }

  /** Big-endian: the first byte weighs most. */
  lemma HeaderIsBigEndian(n: nat)
    requires n < TWO_TO_THE_32
    ensures var h := Header(n);
            n == 0x100_0000 * (h[0] as int) + 0x1_0000 * (h[1] as int) + 0x100 * (h[2] as int) + (h[3] as int)
    ensures Header(258) == [0, 0, 1, 2]
  {
  }

  /** The four ways a read ends, and how far it gets: an oversized length stops it after the header, and
      missing bytes only at the end of the input. */
  lemma ReadCases(s: seq<Byte>)
    ensures Read(s) == ShortHeader <==> |s| < 4
    ensures |s| >= 4 ==>
              var n := Length(s[..4]);
              && (Read(s) == TooLarge <==> n > 65536)
              && (Read(s) == ShortPayload <==> n <= 65536 && |s| < 4 + n)
              && (Read(s).Payload? ==> Read(s) == Payload(s[4..4 + n]) && Consumed(s) == 4 + n)
    ensures Read(s) == TooLarge ==> Consumed(s) == 4
    ensures Read(s) == ShortHeader || Read(s) == ShortPayload ==> Consumed(s) == |s|
  {
  }

  lemma HeaderRoundTrip(n: nat, h: seq<Byte>)
    ensures n < TWO_TO_THE_32 ==> Length(Header(n)) == n
    ensures |h| == HEADER_SIZE ==> Header(Length(h)) == h
  {
    if |h| == HEADER_SIZE {
      var a: int, b: int, c: int, d: int := h[0], h[1], h[2], h[3];
      Digit(a * 256 + b, c);
      Digit((a * 256 + b) * 256 + c, d);
      Digit(a, b);
      assert h == [h[0], h[1], h[2], h[3]];
    }
  }

  lemma Digit(high: int, low: int)
    requires 0 <= low < 256
    ensures (high * 256 + low) / 256 == high && (high * 256 + low) % 256 == low
  {
  }

  /** A frame is read back exactly when it was written: the format is unambiguous in both directions. */
  lemma ReadIff(s: seq<Byte>, p: seq<Byte>)
    ensures Read(s) == Payload(p)
            <==> |p| <= MAX_FRAME_SIZE && |s| >= HEADER_SIZE + |p| && s == Frame(p) + s[HEADER_SIZE + |p|..]
  {
    hide Header, Length;
    if |s| >= HEADER_SIZE {
      var h := s[..HEADER_SIZE];
      HeaderRoundTrip(|p|, h);
      if |p| <= MAX_FRAME_SIZE && |s| >= HEADER_SIZE + |p| {
        var rest := s[HEADER_SIZE + |p|..];
        if s == Frame(p) + rest {
          assert h == Header(|p|);
          assert s[HEADER_SIZE..HEADER_SIZE + |p|] == p;
        }
        if Read(s) == Payload(p) {
          assert s == h + p + rest;
        }
      }
    }
  }

  // ------------------------------------------------------------------
  // The two ends
  // ------------------------------------------------------------------

  /** A connection's sending side: what reached the wire, and how many more bytes it will take before a
      write fails. */
  class Writer {
    var wire: seq<Byte>
    var room: nat

    method Write(b: seq<Byte>) returns (ok: bool)
      modifies this
      ensures ok <==> |b| <= old(room)
      ensures wire == old(wire) + b[..Min(|b|, old(room))] && room == old(room) - Min(|b|, old(room))
    {
      var n := if |b| <= room then |b| else room;
      wire := wire + b[..n];
      room := room - n;
      ok := n == |b|;
    }
  }

  datatype WriteResult = Written | FrameTooLarge | WriteFailed

  /** Either the whole frame is on the wire, or nothing of an oversized one, or a proper prefix. */
  method WriteFrame(w: Writer, payload: seq<Byte>) returns (r: WriteResult)
    modifies w
    ensures r == FrameTooLarge <==> |payload| > MAX_FRAME_SIZE
    ensures r == FrameTooLarge ==> w.wire == old(w.wire) && w.room == old(w.room)
    ensures r == Written ==> w.wire == old(w.wire) + Frame(payload)
    ensures r == WriteFailed ==> old(w.room) < |Frame(payload)|
                                 && w.wire == old(w.wire) + Frame(payload)[..old(w.room)]
  {
    if |payload| > MAX_FRAME_SIZE {
      return FrameTooLarge;
    }
    var hdr := Header(|payload|);
    var ok := w.Write(hdr);
    if !ok {
      return WriteFailed;
    }
    if |payload| == 0 {
      return Written;
    }
    ok := w.Write(payload);
    return if ok then Written else WriteFailed;
  }

  /** A connection's receiving side: every byte that will ever arrive. */
  class Reader {
    var pending: seq<Byte>

    /** Reads exactly n bytes, or drains what there is and fails. */
    method ReadFull(n: nat) returns (ok: bool, buf: seq<Byte>)
      modifies this
      ensures ok <==> n <= |old(pending)|
      ensures ok ==> buf == old(pending)[..n] && pending == old(pending)[n..]
      ensures !ok ==> pending == []
    {
      ok := n <= |pending|;
      if ok {
        buf, pending := pending[..n], pending[n..];
      } else {
        buf, pending := pending, [];
      }
    }

    method ReadFrame() returns (r: ReadResult)
      modifies this
      ensures r == Read(old(pending))
      ensures pending == old(pending)[Consumed(old(pending))..]
    {
      ghost var all := pending;
      var ok, hdr := ReadFull(HEADER_SIZE);
      if !ok {
        return ShortHeader;
      }
      var n := Length(hdr);
      if n > MAX_FRAME_SIZE {
        return TooLarge;
      }
      if n == 0 {
        return Payload([]);
      }
      var buf;
      ok, buf := ReadFull(n);
      if !ok {
        return ShortPayload;
      }
      return Payload(buf);
    }

    /** Reads frames until one cannot be read. */
    method ReadMany() returns (frames: seq<seq<Byte>>, last: ReadResult)
      modifies this
      ensures frames == Frames(old(pending)) && !last.Payload?
    {
      frames := [];
      last := ReadFrame();
      while last.Payload?
        invariant last.Payload? ==> Frames(old(pending)) == frames + [last.payload] + Frames(pending)
        invariant !last.Payload? ==> Frames(old(pending)) == frames
        decreases |pending|, last.Payload?
      {
        frames := frames + [last.payload];
        last := ReadFrame();
      }
    }
  }

  /** The payloads that repeated reads return before the first failure. */
  function Frames(s: seq<Byte>): seq<seq<Byte>>
    decreases |s|
  {
    match Read(s)
    case Payload(p) => [p] + Frames(s[HEADER_SIZE + |p|..])
    case _ => []
  }

  // ------------------------------------------------------------------
  // Concurrent senders
  // ------------------------------------------------------------------

  datatype Phase = Idle | Locked | HeaderOut | Sent

  /** One goroutine: the payloads it has yet to send, the first of them in progress. */
  datatype Sender = Sender(todo: seq<seq<Byte>>, phase: Phase)

  /** log is history: the frames completed so far, and who sent them. */
  datatype System = System(wire: seq<Byte>, owner: Option<nat>, senders: seq<Sender>, log: seq<(nat, seq<Byte>)>)

  datatype Event = Lock(i: nat) | WriteHeader(i: nat) | WritePayload(i: nat) | Unlock(i: nat)

  function With(s: System, i: nat, phase: Phase): System
    requires i < |s.senders|
  {
    s.(senders := s.senders[i := s.senders[i].(phase := phase)])
  }

  /** One step of one goroutine; a step that is not enabled changes nothing. */
  function Step(s: System, e: Event): System {
    if e.i >= |s.senders| || s.senders[e.i].todo == [] then s
    else
      var i, x := e.i, s.senders[e.i];
      var p := x.todo[0];
      match e
      case Lock(_) => if x.phase == Idle && s.owner == None then With(s.(owner := Some(i)), i, Locked) else s
      case WriteHeader(_) =>
        if x.phase != Locked then s
        else if |p| > MAX_FRAME_SIZE then With(s, i, Sent)
        else if |p| == 0 then With(s.(wire := s.wire + Header(0), log := s.log + [(i, p)]), i, Sent)
        else With(s.(wire := s.wire + Header(|p|)), i, HeaderOut)
      case WritePayload(_) =>
        if x.phase != HeaderOut then s
        else With(s.(wire := s.wire + p, log := s.log + [(i, p)]), i, Sent)
      case Unlock(_) =>
        if x.phase != Sent then s
        else s.(owner := None, senders := s.senders[i := Sender(x.todo[1..], Idle)])
  }

  function Run(s: System, events: seq<Event>): System {
    if events == [] then s else Step(Run(s, Front(events)), Last(events))
  }

  ghost predicate Initial(s: System) {
    s.wire == [] && s.owner == None && s.log == [] && forall i | 0 <= i < |s.senders| :: s.senders[i].phase == Idle
  }

  /** The payloads of a queue that fit into a frame. */
  function Sendable(ps: seq<seq<Byte>>): seq<seq<Byte>> {
    if ps == [] then [] else (if |ps[0]| <= MAX_FRAME_SIZE then [ps[0]] else []) + Sendable(ps[1..])
  }

  /** What one sender has put into the log. */
  function By(log: seq<(nat, seq<Byte>)>, i: nat): seq<seq<Byte>> {
    if log == [] then [] else By(Front(log), i) + if Last(log).0 == i then [Last(log).1] else []
  }

  function Payloads(log: seq<(nat, seq<Byte>)>): seq<seq<Byte>> {
    seq(|log|, k requires 0 <= k < |log| => log[k].1)
  }

  predicate AllFit(log: seq<(nat, seq<Byte>)>) { forall x | x in log :: |x.1| <= MAX_FRAME_SIZE }

  /** Whole frames back to back. */
  function Bytes(log: seq<(nat, seq<Byte>)>): seq<Byte>
    requires AllFit(log)
  {
    if log == [] then []
    else
      assert Last(log) in log;
      Bytes(Front(log)) + Frame(Last(log).1)
  }

  /** The payloads a sender still has to get onto the wire. */
  function Outstanding(x: Sender): seq<seq<Byte>> {
    if x.phase == Sent && x.todo != [] then Sendable(x.todo[1..]) else Sendable(x.todo)
  }

  /** The bytes of the frame in progress. */
  function Partial(s: System): seq<Byte> {
    if s.owner.Some? && s.owner.value < |s.senders| && s.senders[s.owner.value].phase == HeaderOut
       && s.senders[s.owner.value].todo != [] && |s.senders[s.owner.value].todo[0]| <= MAX_FRAME_SIZE
    then Header(|s.senders[s.owner.value].todo[0]|)
    else []
  }

  ghost predicate SenderOk(s: System, i: nat)
    requires i < |s.senders|
  {
    var x := s.senders[i];
    && (x.phase != Idle <==> s.owner == Some(i))
    && (x.phase != Idle ==> x.todo != [])
    && (x.phase == HeaderOut ==> 0 < |x.todo[0]| <= MAX_FRAME_SIZE)
  }

  ghost predicate Kept(s: System, first: System) {
    && |s.senders| == |first.senders|
    && AllFit(s.log)
    && s.wire == Bytes(s.log) + Partial(s)
    && (s.owner.Some? ==> s.owner.value < |s.senders|)
    && (forall i | 0 <= i < |s.senders| :: SenderOk(s, i))
    && (forall i | 0 <= i < |s.senders| :: By(s.log, i) + Outstanding(s.senders[i]) == Sendable(first.senders[i].todo))
  }

  lemma LogAppend(log: seq<(nat, seq<Byte>)>, i: nat, p: seq<Byte>)
    requires AllFit(log) && |p| <= MAX_FRAME_SIZE
    ensures AllFit(log + [(i, p)]) && Bytes(log + [(i, p)]) == Bytes(log) + Frame(p)
    ensures forall j: nat :: By(log + [(i, p)], j) == By(log, j) + if j == i then [p] else []
  {
    assert Front(log + [(i, p)]) == log;
  }

  lemma SendableFirst(ps: seq<seq<Byte>>)
    requires ps != []
    ensures Sendable(ps) == (if |ps[0]| <= MAX_FRAME_SIZE then [ps[0]] else []) + Sendable(ps[1..])
  {
  }

  /** What a step of sender i must show when it leaves the others alone. */
  lemma OthersKept(s: System, first: System, u: System, i: nat)
    requires Kept(s, first) && i < |s.senders| && |u.senders| == |s.senders|
    requires forall j | 0 <= j < |s.senders| && j != i :: u.senders[j] == s.senders[j]
    requires (s.owner == None || s.owner == Some(i)) && (u.owner == None || u.owner == Some(i))
    requires forall j: nat | j != i :: By(u.log, j) == By(s.log, j)
    requires AllFit(u.log) && u.wire == Bytes(u.log) + Partial(u) && SenderOk(u, i)
    requires By(u.log, i) + Outstanding(u.senders[i]) == By(s.log, i) + Outstanding(s.senders[i])
    ensures Kept(u, first)
  {
    hide Sendable, By, Bytes, AllFit, Partial, Outstanding;
    forall j | 0 <= j < |u.senders|
      ensures SenderOk(u, j)
      ensures By(u.log, j) + Outstanding(u.senders[j]) == Sendable(first.senders[j].todo)
    {
      assert SenderOk(s, j);
    }
  }

  lemma LockKeeps(s: System, first: System, i: nat)
    requires Kept(s, first) && Step(s, Lock(i)) != s
    ensures Kept(Step(s, Lock(i)), first)
  {
    hide Sendable, By, Bytes, AllFit, Header;
    OthersKept(s, first, Step(s, Lock(i)), i);
  }

  /** An oversized payload is given up without a trace. */
  lemma OversizedKeeps(s: System, first: System, i: nat)
    requires Kept(s, first) && Step(s, WriteHeader(i)) != s && |s.senders[i].todo[0]| > MAX_FRAME_SIZE
    ensures Kept(Step(s, WriteHeader(i)), first)
  {
    hide Sendable, By, Bytes, AllFit, Header;
    assert SenderOk(s, i);
    SendableFirst(s.senders[i].todo);
    OthersKept(s, first, Step(s, WriteHeader(i)), i);
  }

  /** The header of an empty payload is its whole frame. */
  lemma EmptyKeeps(s: System, first: System, i: nat)
    requires Kept(s, first) && Step(s, WriteHeader(i)) != s && s.senders[i].todo[0] == []
    ensures Kept(Step(s, WriteHeader(i)), first)
  {
    hide Sendable, By, Bytes, AllFit, Header;
    assert SenderOk(s, i);
    SendableFirst(s.senders[i].todo);
    LogAppend(s.log, i, []);
    assert Frame([]) == Header(0);
    OthersKept(s, first, Step(s, WriteHeader(i)), i);
  }

  lemma HeaderKeeps(s: System, first: System, i: nat)
    requires Kept(s, first) && Step(s, WriteHeader(i)) != s
    ensures Kept(Step(s, WriteHeader(i)), first)
  {
    hide Sendable, By, Bytes, AllFit, Header;
    var p := s.senders[i].todo[0];
    if |p| > MAX_FRAME_SIZE {
      OversizedKeeps(s, first, i);
    } else if p == [] {
      EmptyKeeps(s, first, i);
    } else {
      assert SenderOk(s, i);
      OthersKept(s, first, Step(s, WriteHeader(i)), i);
    }
  }

  lemma PayloadKeeps(s: System, first: System, i: nat)
    requires Kept(s, first) && Step(s, WritePayload(i)) != s
    ensures Kept(Step(s, WritePayload(i)), first)
  {
    hide Sendable, By, Bytes, AllFit, Header;
    var p := s.senders[i].todo[0];
    assert SenderOk(s, i);
    SendableFirst(s.senders[i].todo);
    LogAppend(s.log, i, p);
    assert s.wire + p == Bytes(s.log) + Frame(p);
    OthersKept(s, first, Step(s, WritePayload(i)), i);
  }

  lemma UnlockKeeps(s: System, first: System, i: nat)
    requires Kept(s, first) && Step(s, Unlock(i)) != s
    ensures Kept(Step(s, Unlock(i)), first)
  {
    hide Sendable, By, Bytes, AllFit, Header;
    assert SenderOk(s, i);
    OthersKept(s, first, Step(s, Unlock(i)), i);
  }

  lemma StepKeeps(s: System, first: System, e: Event)
    requires Kept(s, first)
    ensures Kept(Step(s, e), first)
  {
    hide Kept;
    if Step(s, e) != s {
      match e
      case Lock(i) => LockKeeps(s, first, i);
      case WriteHeader(i) => HeaderKeeps(s, first, i);
      case WritePayload(i) => PayloadKeeps(s, first, i);
      case Unlock(i) => UnlockKeeps(s, first, i);
    }
  }

  lemma InitialKept(s: System)
    requires Initial(s)
    ensures Kept(s, s)
  {
  }

  lemma {:induction false} RunKeeps(s: System, events: seq<Event>)
    requires Initial(s)
    ensures Kept(Run(s, events), s)
  {
    hide Kept, Initial, Step;
    if events == [] {
      InitialKept(s);
    } else {
      RunKeeps(s, Front(events));
      StepKeeps(Run(s, Front(events)), s, Last(events));
    }
  }

  /** Whole frames followed by the beginning of one read back as those frames. */
  lemma {:induction false} FramesOfBytes(log: seq<(nat, seq<Byte>)>, tail: seq<Byte>)
    requires AllFit(log)
    ensures Frames(Bytes(log) + tail) == Payloads(log) + Frames(tail)
  {
    hide Read, Header;
    if log == [] {
      assert Bytes(log) + tail == tail;
    } else {
      var f, p := Front(log), Last(log).1;
      assert Last(log) in log && AllFit(f);
      assert Bytes(log) + tail == Bytes(f) + (Frame(p) + tail);
      FramesOfBytes(f, Frame(p) + tail);
      ReadIff(Frame(p) + tail, p);
      assert (Frame(p) + tail)[HEADER_SIZE + |p|..] == tail;
      assert Payloads(log) == Payloads(f) + [p];
    }
  }

  lemma NoFrameInPart(s: System, first: System)
    requires Kept(s, first)
    ensures Frames(Partial(s)) == []
  {
    if Partial(s) != [] {
      var i := s.owner.value;
      assert SenderOk(s, i);
      var n := |s.senders[i].todo[0]|;
      HeaderRoundTrip(n, []);
      assert Header(n)[..HEADER_SIZE] == Header(n);
    }
  }

  /** At every moment of every interleaving, a reader of the wire gets exactly the completed payloads, and
      each sender's own appear in the order in which it sent them. */
  lemma {:induction false} WireIsWholeFrames(s: System, events: seq<Event>)
    requires Initial(s)
    ensures var u := Run(s, events);
            && AllFit(u.log) && u.wire == Bytes(u.log) + Partial(u)
            && Frames(u.wire) == Payloads(u.log)
            && |u.senders| == |s.senders|
            && (forall i | 0 <= i < |s.senders| ::
                  By(u.log, i) + Outstanding(u.senders[i]) == Sendable(s.senders[i].todo))
  {
    RunKeeps(s, events);
    var u := Run(s, events);
    FramesOfBytes(u.log, Partial(u));
    NoFrameInPart(u, s);
  }

  /** Once every sender is done, the stream is a merge of everything they could send. */
  lemma {:induction false} FinishedRunDelivers(s: System, events: seq<Event>)
    requires Initial(s) && forall x | x in Run(s, events).senders :: x.todo == []
    ensures var u := Run(s, events);
            && Frames(u.wire) == Payloads(u.log) && AllFit(u.log) && u.wire == Bytes(u.log)
            && forall i | 0 <= i < |s.senders| :: By(u.log, i) == Sendable(s.senders[i].todo)
  {
    hide Partial;
    WireIsWholeFrames(s, events);
    var u := Run(s, events);
    NothingPartial(u);
    forall i | 0 <= i < |s.senders|
      ensures By(u.log, i) == Sendable(s.senders[i].todo)
    {
      assert u.senders[i] in u.senders;
    }
  }

  /** The mutex never wedges: while any payload is outstanding, some goroutine can take a step. */
  lemma {:induction false} NeverStuck(s: System, events: seq<Event>, i: nat)
    requires Initial(s) && i < |Run(s, events).senders| && Run(s, events).senders[i].todo != []
    ensures exists e :: Step(Run(s, events), e) != Run(s, events)
  {
    RunKeeps(s, events);
    var u := Run(s, events);
    if u.owner == None {
      assert SenderOk(u, i);
      assert Step(u, Lock(i)).owner != u.owner;
    } else {
      var j := u.owner.value;
      assert SenderOk(u, j);
      var e := if u.senders[j].phase == Locked then WriteHeader(j)
               else if u.senders[j].phase == HeaderOut then WritePayload(j)
               else Unlock(j);
      assert Step(u, e).senders[j].phase != u.senders[j].phase;
    }
  }

  lemma NothingPartial(u: System)
    requires forall x | x in u.senders :: x.todo == []
    ensures Partial(u) == []
  {
    if u.owner.Some? && u.owner.value < |u.senders| {
      assert u.senders[u.owner.value] in u.senders;
    }
  }
}
