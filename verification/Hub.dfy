/** The UDP demultiplexer: per-flow bounded queues behind two gates (internal/stream/hub.go).
    Every method is one lock-held region, or one atomic channel or counter operation, so any
    interleaving of the program is a sequence of these methods. */
module Hub {
  import opened Prelude
  import Jitter

  /** A four-byte or a sixteen-byte address. */
  datatype IP = V4(addr: Uint32) | V6(bits: nat)

  /** The IPv4 address inside an IPv4-mapped IPv6 one. */
  function To4(ip: IP): Option<IP> {
    match ip
    case V4(_) => Some(ip)
    case V6(bits) => if bits / TWO_TO_THE_32 == 0xFFFF then Some(V4(bits % TWO_TO_THE_32)) else None
  }

  function Canonical(ip: IP): IP { if To4(ip) == None then ip else To4(ip).value }

  /** net.IP.Equal: the same bytes, or one of them mapped to the other. */
  predicate SameIP(a: IP, b: IP) {
    a == b || (a.V4? && b.V6? && To4(b) == Some(a)) || (a.V6? && b.V4? && To4(a) == Some(b))
  }

  /** Comparing against the stored form accepts a peer however either side spelled its address. */
  lemma CanonicalGate(source: IP, expected: IP)
    ensures SameIP(source, Canonical(expected)) <==> Canonical(source) == Canonical(expected)
  {
    if source.V6? && expected.V6? && To4(source).Some? && To4(source) == To4(expected) {
      assert To4(source).value == Canonical(expected);
    }
  }

  /** An IPv4 address written as an IPv6 one. */
  function Mapped(addr: Uint32): IP { V6(0xFFFF * TWO_TO_THE_32 + addr) }

  /** Folding undoes the mapping and leaves every other address as it is. */
  lemma CanonicalMeaning(ip: IP, addr: Uint32)
    ensures Canonical(Mapped(addr)) == V4(addr)
    ensures (forall a: Uint32 :: ip != Mapped(a)) ==> Canonical(ip) == ip
  {
    assert (0xFFFF * TWO_TO_THE_32 + addr) / TWO_TO_THE_32 == 0xFFFF;
    if ip.V6? && To4(ip) != None {
      assert ip == Mapped(ip.bits % TWO_TO_THE_32);
    }
  }

  datatype Addr = Addr(ip: IP, port: Uint16)

  const DEFAULT_RING_SIZE: nat := 4096

  datatype Observation = Observation(seqNo: Uint64, stamp: Jitter.Stamp)

  /** A decoded packet as the drainer sees it. */
  datatype Packet = Packet(flowID: Uint32, token: Uint64, obs: Observation)

  /** One packet addressed to a registered flow, and where it came from. */
  datatype Arrival = Arrival(p: Packet, source: Addr)

  /** One packet that passed both gates, and whether the queue had room. */
  datatype Offer = Offer(arrival: Arrival, kept: bool)

  /** The offers that were queued (or, with kept false, dropped), in order. */
  function Sift(offers: seq<Offer>, kept: bool): seq<Observation> {
    if offers == [] then []
    else if Last(offers).kept == kept then Sift(Front(offers), kept) + [Last(offers).arrival.p.obs]
    else Sift(Front(offers), kept)
  }

  lemma SiftAppend(offers: seq<Offer>, o: Offer, kept: bool)
    ensures Sift(offers + [o], kept)
         == if o.kept == kept then Sift(offers, kept) + [o.arrival.p.obs] else Sift(offers, kept)
  {
    assert Front(offers + [o]) == offers;
  }

  /** A flow takes a packet with its token, or any if it has none, from its peer, or anyone if it has none. */
  ghost predicate MayEnter(a: Arrival, peer: Option<IP>, token: Uint64) {
    && (token == 0 || a.p.token == token)
    && (peer == None || Canonical(a.source.ip) == Canonical(peer.value))
  }

  ghost function Entering(heard: seq<Arrival>, peer: Option<IP>, token: Uint64): seq<Arrival> {
    if heard == [] then []
    else Entering(Front(heard), peer, token) + if MayEnter(Last(heard), peer, token) then [Last(heard)] else []
  }

  lemma EnteringAppend(heard: seq<Arrival>, a: Arrival, peer: Option<IP>, token: Uint64)
    ensures Entering(heard + [a], peer, token)
         == Entering(heard, peer, token) + if MayEnter(a, peer, token) then [a] else []
  {
    assert Front(heard + [a]) == heard;
  }

  function Arrivals(offers: seq<Offer>): seq<Arrival> {
    seq(|offers|, i requires 0 <= i < |offers| => offers[i].arrival)
  }

  lemma ArrivalsAppend(offers: seq<Offer>, o: Offer)
    ensures Arrivals(offers + [o]) == Arrivals(offers) + [o.arrival]
  {
  }

  /** Everything offered entered by the gates, and everything heard that may enter was offered. */
  lemma {:induction false} EnteringMeaning(heard: seq<Arrival>, peer: Option<IP>, token: Uint64)
    ensures forall a :: a in Entering(heard, peer, token) <==> a in heard && MayEnter(a, peer, token)
  {
    if heard != [] {
      EnteringMeaning(Front(heard), peer, token);
      assert heard == Front(heard) + [Last(heard)];
    }
  }

  /** The peer address as the hub keeps it. */
  function Stored(peer: Option<IP>): Option<IP> { if peer == None then None else Some(Canonical(peer.value)) }

  class FlowQueue {
    ghost const flowID: Uint32
    ghost const peer: Option<IP>
    const capacity: nat
    const expectedPeerIP: Option<IP>
    const expectedToken: Uint64
    var ch: seq<Observation>
    var closed: bool
    var localDrops: nat
    var remote: Option<Addr>

    /** History: all that was addressed to this flow, all that passed the gates, all that the receiver read,
        all drops it pulled. */
    ghost var heard: seq<Arrival>
    ghost var offers: seq<Offer>
    ghost var read: seq<Observation>
    ghost var pulled: nat
    ghost var closings: nat

    ghost predicate Valid()
      reads this
    {
      && |ch| <= capacity
      && Sift(offers, true) == read + ch
      && |Sift(offers, false)| == localDrops + pulled
      && expectedPeerIP == Stored(peer)
      && Arrivals(offers) == Entering(heard, peer, expectedToken)
      && remote == (if offers == [] then None else Some(offers[0].arrival.source))
      && closings == (if closed then 1 else 0)
    }

    constructor (ghost flowID: Uint32, capacity: nat, ip: Option<IP>, token: Uint64, ghost peer: Option<IP>)
      requires ip == Stored(peer)
      ensures Valid() && !closed && heard == [] && offers == [] && read == [] && pulled == 0
      ensures this.flowID == flowID && this.capacity == capacity
      ensures this.peer == peer && expectedToken == token
    {
      this.flowID := flowID;
      this.peer := peer;
      heard := [];
      this.capacity := capacity;
      expectedPeerIP := ip;
      expectedToken := token;
      ch, closed, localDrops, remote := [], false, 0, None;
      offers, read, pulled, closings := [], [], 0, 0;
    }

    method CaptureRemote(source: Addr)
      modifies this`remote
      ensures remote == if old(remote) == None then Some(source) else old(remote)
    {
      if remote == None {
        remote := Some(source);
      }
    }

    /** The non-blocking send. Sending on a closed channel would panic. */
    method Accept(p: Packet, source: Addr)
      requires Valid() && !closed && MayEnter(Arrival(p, source), peer, expectedToken)
      modifies this
      ensures Valid() && !closed && heard == old(heard) + [Arrival(p, source)]
      ensures offers == old(offers) + [Offer(Arrival(p, source), |old(ch)| < capacity)]
      ensures read == old(read) && pulled == old(pulled)
    {
      hide Sift, Entering, Arrivals, MayEnter, Stored;
      CaptureRemote(source);
      ghost var offer := Offer(Arrival(p, source), |ch| < capacity);
      SiftAppend(offers, offer, true);
      SiftAppend(offers, offer, false);
      ArrivalsAppend(offers, offer);
      EnteringAppend(heard, Arrival(p, source), peer, expectedToken);
      if |ch| < capacity {
        ch := ch + [p.obs];
      } else {
        localDrops := localDrops + 1;
      }
      heard, offers := heard + [Arrival(p, source)], offers + [offer];
    }

    /** A packet that fails a gate leaves no trace but this one. */
    ghost method Refuse(a: Arrival)
      requires Valid() && !MayEnter(a, peer, expectedToken)
      modifies this`heard
      ensures Valid() && heard == old(heard) + [a]
    {
      EnteringAppend(heard, a, peer, expectedToken);
      heard := heard + [a];
    }

    /** Closing twice would panic. Buffered observations stay readable. */
    method Close()
      requires Valid() && !closed
      modifies this`closed, this`closings
      ensures Valid() && closed
    {
      closed := true;
      closings := closings + 1;
    }

    /** A channel receive that does not block. */
    method Receive() returns (o: Option<Observation>)
      requires Valid()
      modifies this`ch, this`read
      ensures Valid()
      ensures o == (if old(ch) == [] then None else Some(old(ch)[0]))
      ensures read == old(read) + (if old(ch) == [] then [] else [old(ch)[0]])
      ensures ch == if old(ch) == [] then [] else old(ch)[1..]
    {
      if ch == [] {
        return None;
      }
      o := Some(ch[0]);
      assert read + ch == (read + [ch[0]]) + ch[1..];
      ch, read := ch[1..], read + [ch[0]];
    }

    method PullLocalDrops() returns (n: nat)
      requires Valid()
      modifies this`localDrops, this`pulled
      ensures Valid() && n == old(localDrops) && localDrops == 0 && pulled == old(pulled) + n
    {
      n := localDrops;
      localDrops := 0;
      pulled := pulled + n;
    }
  }

  /** The per-session handle. */
  class HubFlow {
    const hub: Hub
    const flowID: Uint32
    const queue: FlowQueue
    var released: bool

    ghost predicate Valid()
      reads this, hub
    {
      queue in hub.minted && queue.flowID == flowID
    }

    constructor (hub: Hub, flowID: Uint32, queue: FlowQueue)
      ensures this.hub == hub && this.flowID == flowID && this.queue == queue && !released
    {
      this.hub := hub;
      this.flowID := flowID;
      this.queue := queue;
      released := false;
    }

    /** Idempotent, and a no-op on the hub when the id has since been registered to someone else. */
    method Release()
      requires Valid() && hub.Valid()
      modifies this`released, hub`flows, queue`closed, queue`closings
      ensures Valid() && hub.Valid() && released
      ensures !old(released) ==> queue.closed
      ensures hub.flows == if !old(released) && !old(queue.closed) then old(hub.flows) - {flowID} else old(hub.flows)
      ensures old(released) || old(queue.closed) ==> unchanged(queue)
    {
      if !released {
        released := true;
        if flowID in hub.flows && hub.flows[flowID] == queue {
          hub.Unregister(flowID, queue);
        }
      }
    }
  }

  class Hub {
    var flows: map<Uint32, FlowQueue>

    /** Every queue ever registered. */
    ghost var minted: set<FlowQueue>

    /** A channel is open exactly while its queue is the one registered under its id. */
    ghost predicate Valid()
      reads this, minted
    {
      && (forall id | id in flows :: flows[id] in minted && flows[id].flowID == id)
      && (forall q | q in minted :: q.Valid() && (!q.closed <==> Registered(q)))
    }

    ghost predicate Registered(q: FlowQueue)
      reads this
    {
      q.flowID in flows && flows[q.flowID] == q
    }

    constructor ()
      ensures Valid() && flows == map[] && minted == {}
    {
      flows := map[];
      minted := {};
    }

    method TryRegister(flowID: Uint32, ringSize: int, ip: Option<IP>, token: Uint64) returns (hf: HubFlow?)
      requires Valid()
      modifies this
      ensures Valid()
      ensures hf == null <==> flowID in old(flows)
      ensures hf == null ==> flows == old(flows) && minted == old(minted)
      ensures hf != null ==>
                && fresh(hf) && fresh(hf.queue) && hf.Valid() && hf.hub == this && !hf.released
                && hf.flowID == flowID && !hf.queue.closed && hf.queue.heard == [] && hf.queue.read == []
                && hf.queue.pulled == 0 && hf.queue.expectedToken == token && hf.queue.peer == ip
                && hf.queue.capacity == (if ringSize <= 0 then DEFAULT_RING_SIZE else ringSize)
                && flows == old(flows)[flowID := hf.queue] && minted == old(minted) + {hf.queue}
    {
      var canonical := None;
      if ip != None {
        canonical := Some(Canonical(ip.value));
      }
      var queue := new FlowQueue(flowID, if ringSize <= 0 then DEFAULT_RING_SIZE else ringSize, canonical, token, ip);
      if flowID in flows {
        return null;
      }
      flows := flows[flowID := queue];
      minted := minted + {queue};
      hf := new HubFlow(this, flowID, queue);
    }

    /** One packet read off the socket. Only the flow registered under its id can change: it hears the packet,
        and is offered it exactly when the packet may enter. */
    method Dispatch(p: Packet, source: Addr)
      requires Valid()
      modifies minted
      ensures Valid()
      ensures forall q | q in minted && !(p.flowID in flows && q == flows[p.flowID]) :: unchanged(q)
      ensures p.flowID in flows ==>
                var q := flows[p.flowID];
                && q.read == old(q.read) && q.pulled == old(q.pulled) && q.closed == old(q.closed)
                && q.heard == old(q.heard) + [Arrival(p, source)]
                && q.offers == if MayEnter(Arrival(p, source), q.peer, q.expectedToken)
                               then old(q.offers) + [Offer(Arrival(p, source), |old(q.ch)| < q.capacity)]
                               else old(q.offers)
    {
      hide Sift, Entering, Arrivals, To4;
      if p.flowID in flows {
        var q := flows[p.flowID];
        var ipOK := q.expectedPeerIP == None || SameIP(source.ip, q.expectedPeerIP.value);
        var tokOK := q.expectedToken == 0 || p.token == q.expectedToken;
        if q.peer != None {
          CanonicalGate(source.ip, q.peer.value);
        }
        if ipOK && tokOK {
          q.Accept(p, source);
        } else {
          q.Refuse(Arrival(p, source));
        }
      }
    }

    /** Deletes one registration and closes its channel. */
    method Unregister(id: Uint32, q: FlowQueue)
      requires Valid() && id in flows && flows[id] == q
      modifies this`flows, q`closed, q`closings
      ensures Valid() && flows == old(flows) - {id} && q.closed
    {
      hide Sift, Entering, Arrivals, Stored;
      flows := flows - {id};
      q.Close();
    }

    /** Closes each registered channel once, in whatever order the map yields them. */
    method CloseAll()
      requires Valid()
      modifies this`flows, minted`closed, minted`closings
      ensures Valid() && flows == map[]
      ensures forall q | q in minted :: q.closed
      ensures forall q | q in minted && old(q.closed) :: unchanged(q)
    {
      hide Sift, Entering, Arrivals, Stored;
      while flows != map[]
        invariant Valid()
        invariant forall q | q in minted && old(q.closed) :: q.closed && unchanged(q)
        decreases flows.Keys
      {
        var id :| id in flows;
        Unregister(id, flows[id]);
      }
    }
  }
}
