/** The whole receive side of a multi-session server: one hub, any number of sessions, and an
    arbitrary schedule of everything that can happen to them. */
module Server {
  import opened Prelude
  import Stats
  import Hub
  import Accumulator
  import Receiver

  datatype Event =
    | Register(flowID: Uint32, ringSize: int, ip: Option<Hub.IP>, token: Uint64, t0: int)
    | Dispatch(p: Hub.Packet, source: Hub.Addr)
    | Release(session: nat)
    | Take(session: nat)
    | Observe(session: nat)
    | PullDrops(session: nat)
    | ApplyDrops(session: nat)
    | Shutdown

  // ------------------------------------------------------------------
  // Who hears what
  // ------------------------------------------------------------------

  /** What a session was registered with, and the packets addressed to it while it was registered. */
  datatype Session = Session(
    flowID: Uint32, peer: Option<Hub.IP>, token: Uint64, heard: seq<Hub.Arrival>)

  /** The session registered under each id, and all sessions there have been. */
  datatype Board = Board(flows: map<Uint32, nat>, sessions: seq<Session>)

  const EMPTY_BOARD := Board(map[], [])

  /** A session keeps its id from its registration to its release or to the shutdown. */
  function After(b: Board, e: Event): Board {
    match e
    case Register(flowID, _, ip, token, _) =>
      if flowID in b.flows then b
      else Board(b.flows[flowID := |b.sessions|], b.sessions + [Session(flowID, ip, token, [])])
    case Dispatch(p, source) =>
      if p.flowID !in b.flows || b.flows[p.flowID] >= |b.sessions| then b
      else
        var k := b.flows[p.flowID];
        var s := b.sessions[k];
        b.(sessions := b.sessions[k := s.(heard := s.heard + [Hub.Arrival(p, source)])])
    case Release(k) =>
      if k < |b.sessions| && b.sessions[k].flowID in b.flows && b.flows[b.sessions[k].flowID] == k
      then b.(flows := b.flows - {b.sessions[k].flowID}) else b
    case Shutdown => b.(flows := map[])
    case _ => b
  }

  function AfterAll(b: Board, schedule: seq<Event>): Board {
    if schedule == [] then b else After(AfterAll(b, Front(schedule)), Last(schedule))
  }

  /** The board says which of the given queues is registered under each id, and what each one has heard. */
  ghost predicate Showing(b: Board, flows: map<Uint32, Hub.FlowQueue>, queues: seq<Hub.FlowQueue>, facts: seq<Session>)
  {
    && b.flows.Keys == flows.Keys && b.sessions == facts && |facts| == |queues|
    && (forall id | id in flows :: b.flows[id] < |queues| && queues[b.flows[id]] == flows[id])
    && (forall i, j | 0 <= i < j < |queues| :: queues[i] != queues[j])
  }

  /** The queue is the one registered under the packet's id. */
  ghost predicate Addressed(flows: map<Uint32, Hub.FlowQueue>, q: Hub.FlowQueue, p: Hub.Packet) {
    p.flowID in flows && flows[p.flowID] == q
  }

  /** What the sessions know once the addressed one has heard a packet. */
  ghost function HeardIn(facts: seq<Session>, queues: seq<Hub.FlowQueue>, flows: map<Uint32, Hub.FlowQueue>,
                         a: Hub.Arrival): seq<Session>
    requires |queues| == |facts|
  {
    seq(|facts|, k requires 0 <= k < |facts| =>
      if Addressed(flows, queues[k], a.p) then facts[k].(heard := facts[k].heard + [a])
      else facts[k])
  }

  lemma Hearing(b: Board, flows: map<Uint32, Hub.FlowQueue>, queues: seq<Hub.FlowQueue>, facts: seq<Session>,
                a: Hub.Arrival)
    requires Showing(b, flows, queues, facts)
    ensures Showing(After(b, Event.Dispatch(a.p, a.source)), flows, queues, HeardIn(facts, queues, flows, a))
  {
  }

  lemma Adding(b: Board, e: Event, flows: map<Uint32, Hub.FlowQueue>, queues: seq<Hub.FlowQueue>,
               facts: seq<Session>, q: Hub.FlowQueue)
    requires e.Register? && Showing(b, flows, queues, facts) && e.flowID !in flows && q !in queues
    ensures Showing(After(b, e), flows[e.flowID := q], queues + [q],
                    facts + [Session(e.flowID, e.ip, e.token, [])])
  {
  }

  lemma SameBoard(b: Board, e: Event, flows: map<Uint32, Hub.FlowQueue>, queues: seq<Hub.FlowQueue>,
                  facts: seq<Session>)
    requires e.Register? && Showing(b, flows, queues, facts) && e.flowID in flows
    ensures After(b, e) == b
  {
  }

  lemma Closing(b: Board, flows: map<Uint32, Hub.FlowQueue>, queues: seq<Hub.FlowQueue>, facts: seq<Session>)
    requires Showing(b, flows, queues, facts)
    ensures Showing(After(b, Event.Shutdown), map[], queues, facts)
  {
  }

  lemma Removing(
      b: Board, flows: map<Uint32, Hub.FlowQueue>, queues: seq<Hub.FlowQueue>, facts: seq<Session>, k: nat)
    requires Showing(b, flows, queues, facts) && k < |queues| && facts[k].flowID == queues[k].flowID
    ensures var id := facts[k].flowID;
            Showing(After(b, Event.Release(k)), if id in flows && flows[id] == queues[k] then flows - {id} else flows,
                    queues, facts)
  {
  }

  class Server {
    const hub: Hub.Hub
    var handles: seq<Hub.HubFlow>
    var receivers: seq<Receiver.Receiver>
    ghost var Repr: set<object>

    ghost predicate Valid()
      reads this, Repr
    {
      && this in Repr && hub in Repr && hub.minted <= Repr
      && hub.Valid()
      && |handles| == |receivers|
      && (forall i | 0 <= i < |handles| :: Paired(handles[i], receivers[i]))
      && (forall i, j | 0 <= i < j < |handles| :: Apart(receivers[i], receivers[j]))
    }

    ghost predicate Paired(h: Hub.HubFlow, r: Receiver.Receiver)
      reads this, Repr
      requires this in Repr && hub in Repr
    {
      && h in Repr && r in Repr && r.acc in Repr && r.queue in Repr
      && h.hub == hub && h.Valid()
      && r.queue == h.queue && r.Valid()
      && (h.released ==> r.queue.closed)
    }

    ghost function Queues(): seq<Hub.FlowQueue>
      reads this, receivers
    {
      seq(|receivers|, k requires 0 <= k < |receivers| reads this, receivers => receivers[k].queue)
    }

    ghost function SessionOf(q: Hub.FlowQueue): Session
      reads q
    {
      Session(q.flowID, q.peer, q.expectedToken, q.heard)
    }

    ghost function SessionAt(k: nat): Session
      reads this, Repr
      requires Valid() && k < |receivers|
    {
      assert Paired(handles[k], receivers[k]);
      SessionOf(receivers[k].queue)
    }

    ghost function Facts(): seq<Session>
      reads this, Repr
      requires Valid()
    {
      seq(|receivers|, k requires 0 <= k < |receivers| && Valid() reads this, Repr => SessionAt(k))
    }

    ghost predicate Shows(b: Board)
      reads this, Repr
      requires Valid()
    {
      Showing(b, hub.flows, Queues(), Facts())
    }

    ghost predicate Addressing(flows: map<Uint32, Hub.FlowQueue>, q: Hub.FlowQueue) {
      q.flowID in flows && flows[q.flowID] == q
    }

    ghost predicate Apart(r: Receiver.Receiver, r': Receiver.Receiver) {
      r != r' && r.queue != r'.queue && r.acc != r'.acc
    }

    constructor ()
      ensures Valid() && fresh(Repr) && receivers == [] && Shows(EMPTY_BOARD)
    {
      hub := new Hub.Hub();
      handles, receivers := [], [];
      new;
      Repr := {this, hub};
    }

    /** Registering fails exactly when the id is taken; otherwise the hub gains one open flow and the
        server one fresh session on it. */
    method Register(flowID: Uint32, ringSize: int, ip: Option<Hub.IP>, token: Uint64, t0: int)
      requires Valid()
      modifies Repr
      ensures Valid() && fresh(Repr - old(Repr))
      ensures flowID in old(hub.flows) ==> receivers == old(receivers) && hub.flows == old(hub.flows)
      ensures flowID !in old(hub.flows) ==>
                && |receivers| == |old(receivers)| + 1 && receivers[..|old(receivers)|] == old(receivers)
                && hub.flows == old(hub.flows)[flowID := Last(receivers).queue]
                && !Last(receivers).queue.closed && Last(receivers).observed == []
                && SessionOf(Last(receivers).queue) == Session(flowID, ip, token, [])
      ensures forall r | r in old(receivers) :: r.queue.heard == old(r.queue.heard)
    {
      hide Stats.Run, Hub.Sift, Receiver.Numbers, Accumulator.Accumulator.Valid, Hub.FlowQueue.Valid;
      var hf := hub.TryRegister(flowID, ringSize, ip, token);
      if hf != null {
        Repr := Repr + {hf.queue};
        Admit(hf, t0);
      }
    }

    /** Adds a session for a queue that no session uses yet. */
    method Admit(hf: Hub.HubFlow, t0: int)
      requires Valid()
      requires hf.hub == hub && hf.Valid() && !hf.released && hf.queue.read == [] && hf.queue.pulled == 0
      requires forall i | 0 <= i < |receivers| :: receivers[i].queue != hf.queue
      modifies this
      ensures Valid() && fresh(Repr - old(Repr) - {hf})
      ensures |receivers| == |old(receivers)| + 1 && receivers[..|old(receivers)|] == old(receivers)
      ensures Last(receivers).queue == hf.queue && Last(receivers).observed == []
    {
      hide Stats.Run, Hub.Sift, Receiver.Numbers;
      hide Receiver.Receiver.Valid, Accumulator.Accumulator.Valid, Hub.FlowQueue.Valid;
      var r := new Receiver.Receiver(hf.queue, t0);
      Repr := Repr + {hf, r, r.acc};
      handles, receivers := handles + [hf], receivers + [r];
    }

    /** A packet that passes the gates of the flow registered under its id is offered there and nowhere else. */
    method Dispatch(p: Hub.Packet, source: Hub.Addr)
      requires Valid()
      modifies Repr
      ensures Valid() && Repr == old(Repr)
      ensures receivers == old(receivers) && handles == old(handles)
      ensures hub.flows == old(hub.flows)
      ensures forall r | r in receivers :: HeardBy(r.queue, Hub.Arrival(p, source))
      ensures forall r | r in receivers ::
                r.queue.offers == if Addressed(hub.flows, r.queue, p)
                                     && Hub.MayEnter(Hub.Arrival(p, source), r.queue.peer, r.queue.expectedToken)
                                  then old(r.queue.offers)
                                       + [Hub.Offer(Hub.Arrival(p, source), |old(r.queue.ch)| < r.queue.capacity)]
                                  else old(r.queue.offers)
    {
      hide Stats.Run, Hub.Sift, Hub.Entering, Hub.Arrivals, Hub.MayEnter, Hub.Stored;
      hide Receiver.Numbers, Accumulator.Accumulator.Valid, Hub.FlowQueue.Valid;
      hub.Dispatch(p, source);
    }

    method Shutdown()
      requires Valid()
      modifies Repr
      ensures Valid() && Repr == old(Repr)
      ensures receivers == old(receivers) && handles == old(handles)
      ensures forall r | r in receivers :: r.queue.heard == old(r.queue.heard)
      ensures hub.flows == map[] && forall r | r in receivers :: r.queue.closed
    {
      hide Stats.Run, Hub.Sift, Hub.Entering, Hub.Arrivals, Hub.Stored;
      hide Receiver.Numbers, Accumulator.Accumulator.Valid, Hub.FlowQueue.Valid;
      hub.CloseAll();
    }

    method Release(k: nat)
      requires Valid() && k < |handles|
      modifies Repr
      ensures Valid() && Repr == old(Repr)
      ensures receivers == old(receivers) && handles == old(handles)
      ensures receivers[k].queue.heard == old(receivers[k].queue.heard)
      ensures var q := receivers[k].queue;
              hub.flows == if Addressing(old(hub.flows), q) then old(hub.flows) - {q.flowID} else old(hub.flows)
      ensures forall i | 0 <= i < |receivers| && i != k :: unchanged(receivers[i], receivers[i].queue, receivers[i].acc)
      ensures handles[k].released && (!old(handles[k].released) ==> receivers[k].queue.closed)
      ensures old(handles[k].released) || old(receivers[k].queue.closed) ==> hub.flows == old(hub.flows)
    {
      hide Stats.Run, Hub.Sift, Receiver.Numbers, Accumulator.Accumulator.Valid, Hub.FlowQueue.Valid;
      handles[k].Release();
    }

    method Take(k: nat)
      requires Valid() && k < |receivers|
      modifies Repr
      ensures Valid() && Repr == old(Repr)
      ensures receivers == old(receivers) && handles == old(handles)
      ensures hub.flows == old(hub.flows) && receivers[k].queue.heard == old(receivers[k].queue.heard)
      ensures forall i | 0 <= i < |receivers| && i != k :: unchanged(receivers[i], receivers[i].queue, receivers[i].acc)
      ensures receivers[k].Unread() == old(receivers[k].Unread())
      ensures old(receivers[k].Unread()) != [] ==> receivers[k].hand == Some(old(receivers[k].Unread())[0])
    {
      hide Stats.Run, Hub.Sift, Receiver.Numbers, Accumulator.Accumulator.Valid, Hub.FlowQueue.Valid;
      if receivers[k].hand == None {
        var _ := receivers[k].Take();
      }
    }

    method Observe(k: nat)
      requires Valid() && k < |receivers|
      modifies Repr
      ensures Valid() && Repr == old(Repr)
      ensures receivers == old(receivers) && handles == old(handles)
      ensures hub.flows == old(hub.flows) && receivers[k].queue.heard == old(receivers[k].queue.heard)
      ensures forall i | 0 <= i < |receivers| && i != k :: unchanged(receivers[i], receivers[i].queue, receivers[i].acc)
      ensures receivers[k].hand == None
      ensures receivers[k].observed == old(receivers[k].observed) + Receiver.HandList(old(receivers[k].hand))
    {
      hide Stats.Run, Hub.Sift, Receiver.Numbers, Accumulator.Accumulator.Valid;
      if receivers[k].hand != None {
        receivers[k].ObserveHand();
      }
    }

    method PullDrops(k: nat)
      requires Valid() && k < |receivers|
      modifies Repr
      ensures Valid() && Repr == old(Repr)
      ensures receivers == old(receivers) && handles == old(handles)
      ensures hub.flows == old(hub.flows) && receivers[k].queue.heard == old(receivers[k].queue.heard)
      ensures forall i | 0 <= i < |receivers| && i != k :: unchanged(receivers[i], receivers[i].queue, receivers[i].acc)
      ensures receivers[k].Drops() == old(receivers[k].Drops())
      ensures old(receivers[k].carried) == 0 ==> receivers[k].queue.localDrops == 0
    {
      hide Stats.Run, Hub.Sift, Receiver.Numbers, Accumulator.Accumulator.Valid;
      if receivers[k].carried == 0 {
        receivers[k].PullDrops();
      }
    }

    method ApplyDrops(k: nat)
      requires Valid() && k < |receivers|
      modifies Repr
      ensures Valid() && Repr == old(Repr)
      ensures receivers == old(receivers) && handles == old(handles)
      ensures hub.flows == old(hub.flows) && receivers[k].queue.heard == old(receivers[k].queue.heard)
      ensures forall i | 0 <= i < |receivers| && i != k :: unchanged(receivers[i], receivers[i].queue, receivers[i].acc)
      ensures receivers[k].carried == 0 && receivers[k].Drops() == old(receivers[k].Drops())
    {
      hide Stats.Run, Hub.Sift, Receiver.Numbers, Accumulator.Accumulator.Valid;
      receivers[k].ApplyDrops();
    }

    lemma AllHonest()
      requires Valid()
      ensures forall r | r in receivers :: r.Balanced() && r.Honest()
    {
      forall r | r in receivers
        ensures r.Balanced() && r.Honest()
      {
        var i :| 0 <= i < |receivers| && receivers[i] == r;
        assert Paired(handles[i], receivers[i]);
        r.ValidIsHonest();
      }
    }

    lemma ShownIsPlain(b: Board)
      requires Valid()
      ensures Shows(b) <==>
                && b.flows.Keys == hub.flows.Keys && |b.sessions| == |receivers|
                && (forall k | 0 <= k < |receivers| :: b.sessions[k] == SessionAt(k))
                && (forall id | id in hub.flows ::
                      b.flows[id] < |receivers| && receivers[b.flows[id]].queue == hub.flows[id])
    {
    }

    twostate lemma NobodyHeard(b: Board)
      requires old(Valid()) && Valid() && old(Shows(b))
      requires receivers == old(receivers) && forall r | r in receivers :: r.queue.heard == old(r.queue.heard)
      ensures Showing(b, old(hub.flows), Queues(), Facts())
      ensures hub.flows == old(hub.flows) ==> Shows(b)
    {
      hide Paired, Receiver.Receiver.Valid, Hub.Hub.Valid;
      assert Facts() == old(Facts());
      assert Queues() == old(Queues());
    }

    twostate predicate HeardBy(q: Hub.FlowQueue, a: Hub.Arrival)
      reads this, hub, q
    {
      q.heard == old(q.heard) + if Addressed(hub.flows, q, a.p) then [a] else []
    }

    twostate lemma FactsHeard(a: Hub.Arrival)
      requires old(Valid()) && Valid() && receivers == old(receivers)
      requires forall r | r in receivers :: HeardBy(r.queue, a)
      ensures Queues() == old(Queues())
      ensures Facts() == HeardIn(old(Facts()), Queues(), hub.flows, a)
    {
      hide Paired, Receiver.Receiver.Valid, Hub.Hub.Valid;
      assert Queues() == old(Queues());
      forall k | 0 <= k < |receivers|
        ensures Facts()[k] == HeardIn(old(Facts()), Queues(), hub.flows, a)[k]
      {
        assert Queues()[k] == receivers[k].queue && Facts()[k] == SessionAt(k);
        assert old(Facts())[k] == old(SessionAt(k));
      }
    }

    /** What one reader does is none of the board's business. */
    method Read(e: Event, ghost b: Board)
      requires Valid() && Shows(b)
      requires (e.Take? || e.Observe? || e.PullDrops? || e.ApplyDrops?) && e.session < |receivers|
      modifies Repr
      ensures Valid() && Repr == old(Repr) && Shows(b)
    {
      hide Valid, Shows, Paired;
      var k := e.session;
      if e.Take? {
        Take(k);
      } else if e.Observe? {
        Observe(k);
      } else if e.PullDrops? {
        PullDrops(k);
      } else {
        ApplyDrops(k);
      }
      NobodyHeard(b);
    }

    method CloseDown(ghost b: Board)
      requires Valid() && Shows(b)
      modifies Repr
      ensures Valid() && Repr == old(Repr) && Shows(After(b, Event.Shutdown))
    {
      hide Valid, Shows, Paired, Showing;
      ghost var flows := hub.flows;
      Shutdown();
      NobodyHeard(b);
      Closing(b, flows, Queues(), Facts());
      Redrawn(After(b, Event.Shutdown));
    }

    /** A release takes at most the session's own registration away. */
    method Retire(k: nat, ghost b: Board)
      requires Valid() && Shows(b) && k < |handles|
      modifies Repr
      ensures Valid() && Repr == old(Repr) && Shows(After(b, Event.Release(k)))
    {
      FactAt(k);
      hide Valid, Shows, Paired, Showing;
      ghost var flows := hub.flows;
      Release(k);
      NobodyHeard(b);
      Removing(b, flows, Queues(), Facts(), k);
      Redrawn(After(b, Event.Release(k)));
    }

    lemma FactAt(k: nat)
      requires Valid() && k < |receivers|
      ensures Facts()[k].flowID == receivers[k].queue.flowID && Queues()[k] == receivers[k].queue
      ensures |handles| == |receivers|
    {
    }

    lemma Redrawn(b: Board)
      requires Valid()
      ensures Showing(b, hub.flows, Queues(), Facts()) <==> Shows(b)
    {
    }

    twostate lemma OneMore(n: nat)
      requires old(Valid()) && Valid() && |old(receivers)| == n && |receivers| == n + 1
      requires receivers[..n] == old(receivers)
      requires forall r | r in old(receivers) :: r.queue.heard == old(r.queue.heard)
      ensures Queues() == old(Queues()) + [receivers[n].queue]
      ensures Facts() == old(Facts()) + [SessionOf(receivers[n].queue)]
      ensures forall i | 0 <= i < n :: Queues()[i] != receivers[n].queue
    {
      hide Receiver.Receiver.Valid, Hub.Hub.Valid;
      assert forall i | 0 <= i < n :: receivers[i] == receivers[..n][i];
      assert forall i | 0 <= i < n :: Apart(receivers[i], receivers[n]);
    }

    method Enroll(e: Event, ghost b: Board)
      requires Valid() && Shows(b) && e.Register?
      modifies Repr
      ensures Valid() && fresh(Repr - old(Repr)) && Shows(After(b, e))
    {
      ghost var flows, queues, facts, n := hub.flows, Queues(), Facts(), |receivers|;
      hide Valid, Shows, Paired, Showing, SessionOf;
      Redrawn(b);
      Register(e.flowID, e.ringSize, e.ip, e.token, e.t0);
      if e.flowID in flows {
        NobodyHeard(b);
        SameBoard(b, e, flows, queues, facts);
      } else {
        OneMore(n);
        Adding(b, e, flows, queues, facts, receivers[n].queue);
      }
      Redrawn(After(b, e));
    }

    method Route(p: Hub.Packet, source: Hub.Addr, ghost b: Board)
      requires Valid() && Shows(b)
      modifies Repr
      ensures Valid() && Repr == old(Repr) && Shows(After(b, Event.Dispatch(p, source)))
    {
      ghost var flows, facts := hub.flows, Facts();
      hide Valid, Shows, Showing, HeardIn;
      Redrawn(b);
      Dispatch(p, source);
      FactsHeard(Hub.Arrival(p, source));
      Hearing(b, flows, Queues(), facts, Hub.Arrival(p, source));
      Redrawn(After(b, Event.Dispatch(p, source)));
    }

    /** One event. */
    method Perform(e: Event, ghost b: Board)
      requires Valid() && Shows(b)
      modifies Repr
      ensures Valid() && fresh(Repr - old(Repr)) && Shows(After(b, e))
    {
      hide Valid, Shows;
      Sizes(b);
      if e.Register? {
        Enroll(e, b);
      } else if e.Dispatch? {
        Route(e.p, e.source, b);
      } else if e.Shutdown? {
        CloseDown(b);
      } else if e.Release? && e.session < |handles| {
        Retire(e.session, b);
      } else if !e.Release? && e.session < |receivers| {
        Read(e, b);
      }
    }

    lemma Sizes(b: Board)
      requires Valid() && Shows(b)
      ensures |b.sessions| == |receivers| == |handles|
    {
    }

    /** What was offered to the session is what it heard that had its token and came from its peer, and the
        captured remote is the source of the first of these. */
    ghost predicate Gated(s: Session, q: Hub.FlowQueue)
      reads q
    {
      var entered := Hub.Entering(s.heard, s.peer, s.token);
      && Hub.Arrivals(q.offers) == entered
      && q.remote == if entered == [] then None else Some(entered[0].source)
    }

    lemma AllGated(b: Board)
      requires Valid() && Shows(b)
      ensures |b.sessions| == |receivers| && forall k | 0 <= k < |receivers| :: Gated(b.sessions[k], receivers[k].queue)
    {
      ShownIsPlain(b);
      forall k | 0 <= k < |receivers|
        ensures Gated(b.sessions[k], receivers[k].queue)
      {
        assert Paired(handles[k], receivers[k]);
        QueueIsGated(receivers[k].queue);
      }
    }

    lemma QueueIsGated(q: Hub.FlowQueue)
      requires q.Valid()
      ensures Gated(SessionOf(q), q)
    {
      assert |Hub.Arrivals(q.offers)| == |q.offers|;
    }

    /** Any schedule at all leaves every session balanced and its reported loss honest; each session was offered
        exactly the packets, of those addressed to it while it was registered, that may enter. */
    method Play(schedule: seq<Event>, ghost b: Board)
      requires Valid() && Shows(b)
      modifies Repr
      ensures Valid() && fresh(Repr - old(Repr)) && Shows(AfterAll(b, schedule))
      ensures forall r | r in receivers :: r.Balanced() && r.Honest()
      ensures var sessions := AfterAll(b, schedule).sessions;
              |sessions| == |receivers| && forall k | 0 <= k < |receivers| :: Gated(sessions[k], receivers[k].queue)
    {
      for n := 0 to |schedule|
        invariant Valid() && fresh(Repr - old(Repr)) && Shows(AfterAll(b, schedule[..n]))
      {
        assert Front(schedule[..n + 1]) == schedule[..n];
        Perform(schedule[n], AfterAll(b, schedule[..n]));
      }
      assert schedule[..|schedule|] == schedule;
      AllHonest();
      AllGated(AfterAll(b, schedule));
    }
  }
}
