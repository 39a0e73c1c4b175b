/** The hub-fed receiver and the honest-loss guarantee that spans hub, queue and accumulator
    (internal/stream/receiver.go, hub.go, stats.go). */
module Receiver {
  import opened Prelude
  import Stats
  import Accumulator
  import Hub

  function Numbers(obs: seq<Hub.Observation>): seq<Uint64> {
    if obs == [] then [] else Numbers(Front(obs)) + [Last(obs).seqNo]
  }

  /** The sequence numbers of everything that reached the hub and passed its gates. */
  function Arrived(offers: seq<Hub.Offer>): set<Uint64> { set o | o in offers :: o.arrival.p.obs.seqNo }

  lemma {:induction false} NumbersAppend(a: seq<Hub.Observation>, b: seq<Hub.Observation>)
    ensures Numbers(a + b) == Numbers(a) + Numbers(b)
    ensures |Numbers(b)| == |b|
  {
    if b == [] {
      assert a + b == a;
    } else {
      assert Front(a + b) == a + Front(b);
      NumbersAppend(a, Front(b));
    }
  }

  lemma {:induction false} SiftCovers(offers: seq<Hub.Offer>)
    ensures |offers| == |Hub.Sift(offers, true)| + |Hub.Sift(offers, false)|
    ensures Arrived(offers) == Elems(Numbers(Hub.Sift(offers, true))) + Elems(Numbers(Hub.Sift(offers, false)))
  {
    if offers != [] {
      var f, o := Front(offers), Last(offers);
      SiftCovers(f);
      assert offers == f + [o];
      assert Arrived(offers) == Arrived(f) + {o.arrival.p.obs.seqNo};
      NumbersAppend(Hub.Sift(f, o.kept), [o.arrival.p.obs]);
      assert Numbers([o.arrival.p.obs]) == [o.arrival.p.obs.seqNo];
      ElemsAppend(Numbers(Hub.Sift(f, o.kept)), o.arrival.p.obs.seqNo);
    }
  }

  /** The sequence numbers below the receiver's limit that never reached the hub. */
  function NeverArrived(offers: seq<Hub.Offer>, log: seq<Uint64>): set<int> {
    Range(Stats.Limit(log)) - Arrived(offers)
  }

  /** Nothing that passed the gates vanishes: it was observed, is still unread, or is a counted local
      drop. So reported loss never exceeds the network's by more than the packets this process itself still
      holds or dropped; and below the duplicate-set cap it covers every packet the network lost. */
  lemma {:induction false} HonestLoss(offers: seq<Hub.Offer>, observed: seq<Hub.Observation>,
                                      unread: seq<Hub.Observation>, drops: nat)
    requires Hub.Sift(offers, true) == observed + unread
    requires |Hub.Sift(offers, false)| == drops
    requires Stats.NothingRejected(Numbers(observed))
    ensures |offers| == |observed| + |unread| + drops
    ensures var log := Numbers(observed);
            && Stats.Run(log).lost <= |NeverArrived(offers, log)| + |unread| + drops
            && (|Elems(log)| <= Stats.MAX_SEEN_ENTRIES ==> |NeverArrived(offers, log)| <= Stats.Run(log).lost)
  {
    hide Stats.Run, Stats.Accepted;
    var log := Numbers(observed);
    SiftCovers(offers);
    MissingIsHeldOrLost(offers, observed, unread, drops);
    Stats.AlwaysBounded(log);
    if |Elems(log)| <= Stats.MAX_SEEN_ENTRIES {
      Stats.ExactBelowCap(log);
    }
  }

  /** What the log misses either never arrived, or arrived and is unread or was dropped here. */
  lemma {:induction false} MissingIsHeldOrLost(offers: seq<Hub.Offer>, observed: seq<Hub.Observation>,
                                               unread: seq<Hub.Observation>, drops: nat)
    requires Hub.Sift(offers, true) == observed + unread
    requires |Hub.Sift(offers, false)| == drops
    ensures var log := Numbers(observed);
            |NeverArrived(offers, log)| <= |Stats.Missing(log)| <= |NeverArrived(offers, log)| + |unread| + drops
  {
    var log := Numbers(observed);
    var held, lostHere := Elems(Numbers(unread)), Elems(Numbers(Hub.Sift(offers, false)));
    SiftCovers(offers);
    NumbersAppend(observed, unread);
    NumbersAppend([], Hub.Sift(offers, false));
    ElemsAtMostLength(Numbers(unread));
    ElemsAtMostLength(Numbers(Hub.Sift(offers, false)));
    assert Elems(log + Numbers(unread)) == Elems(log) + held;
    var missing, never := Stats.Missing(log), NeverArrived(offers, log);
    assert never <= missing <= never + (set x: int | x in held) + (set x: int | x in lostHere);
    Widen(held);
    Widen(lostHere);
    UnionBound(missing, never, set x: int | x in held, set x: int | x in lostHere);
  }

  lemma {:induction false} Widen(s: set<Uint64>)
    ensures |set x: int | x in s| == |s|
  {
    assert (set x: int | x in s) == s;
  }

  lemma UnionBound(m: set<int>, a: set<int>, b: set<int>, c: set<int>)
    requires a <= m <= a + b + c
    ensures |a| <= |m| <= |a| + |b| + |c|
  {
    SubsetCard(a, m);
    SubsetCard(m, a + b + c);
  }

  function HandList(hand: Option<Hub.Observation>): seq<Hub.Observation> {
    if hand == None then [] else [hand.value]
  }

  lemma Regroup<T>(a: seq<T>, x: T, b: seq<T>)
    ensures a + ([x] + b) == (a + [x]) + b
  {
  }

  /** Two goroutines share the accumulator: the stats loop, which may hold one dequeued packet, and
      the tick loop, which may hold one pulled drop count. */
  class Receiver {
    const queue: Hub.FlowQueue
    const acc: Accumulator.Accumulator
    var hand: Option<Hub.Observation>
    var carried: nat

    /** Everything handed to the accumulator, in order. */
    ghost var observed: seq<Hub.Observation>

    ghost predicate Valid()
      reads this, acc, queue
    {
      && acc.Valid()
      && queue.Valid()
      && acc.log == Numbers(observed)
      && queue.read == observed + HandList(hand)
      && queue.pulled == acc.localDrops + carried
    }

    constructor (queue: Hub.FlowQueue, t0: int)
      requires queue.Valid() && queue.read == [] && queue.pulled == 0
      ensures Valid() && this.queue == queue && fresh(acc) && hand == None && carried == 0 && observed == []
    {
      this.queue := queue;
      acc := new Accumulator.Accumulator(t0);
      hand, carried, observed := None, 0, [];
    }

    /** Stats loop, first half: take one packet off the channel. */
    method Take() returns (more: bool)
      requires Valid() && hand == None
      modifies this`hand, queue`ch, queue`read
      ensures Valid() && more == (old(queue.ch) != []) && (more <==> hand != None)
      ensures HandList(hand) + queue.ch == old(queue.ch)
    {
      hide Stats.Run, Hub.Sift, Numbers, Accumulator.Accumulator.Valid, Hub.FlowQueue.Valid;
      hand := queue.Receive();
      more := hand != None;
    }

    /** Stats loop, second half: account for it. */
    method ObserveHand()
      requires Valid() && hand != None
      modifies this`hand, this`observed, acc
      ensures Valid() && hand == None && observed == old(observed) + [old(hand).value]
    {
      hide Stats.Run, Hub.Sift, Hub.FlowQueue.Valid;
      NumbersAppend(observed, [hand.value]);
      assert Numbers([hand.value]) == [hand.value.seqNo];
      acc.Observe(hand.value.seqNo, hand.value.stamp);
      observed := observed + [hand.value];
      hand := None;
    }

    /** On cancellation the stats loop reads until it finds the channel empty. */
    method Drain()
      requires Valid() && hand == None
      modifies this`hand, this`observed, queue`ch, queue`read, acc
      ensures Valid() && hand == None && queue.ch == []
      ensures observed == old(observed) + old(queue.ch)
    {
      hide Stats.Run, Hub.Sift, Numbers, Receiver.Valid;
      ghost var todo := queue.ch;
      ghost var done := observed;
      var more := Take();
      while more
        invariant Valid() && (more <==> hand != None)
        invariant observed + (HandList(hand) + queue.ch) == done + todo
        invariant !more ==> queue.ch == []
        decreases |queue.ch|, more
      {
        Regroup(observed, hand.value, queue.ch);
        ObserveHand();
        more := Take();
      }
    }

    /** Tick loop, first half: swap the hub's overflow counter to zero. */
    method PullDrops()
      requires Valid() && carried == 0
      modifies this`carried, queue`localDrops, queue`pulled
      ensures Valid() && queue.localDrops == 0 && carried == old(queue.localDrops)
    {
      hide Stats.Run, Hub.Sift, Numbers, Accumulator.Accumulator.Valid, Hub.FlowQueue.Valid;
      carried := queue.PullLocalDrops();
    }

    /** Tick loop, second half: forward the count to the accumulator. */
    method ApplyDrops()
      requires Valid()
      modifies this`carried, acc`localDrops
      ensures Valid() && carried == 0 && acc.localDrops == old(acc.localDrops) + old(carried)
    {
      if carried > 0 {
        acc.AddLocalDrop(carried);
      }
      carried := 0;
    }

    /** The end of a session on which no more packets arrive: drain, collect the drops, take the final
        snapshot. Reported loss then brackets the network's loss by the reported local drops alone. */
    method Finish(kernelDrops: int, now: int) returns (s: Accumulator.Snapshot)
      requires Valid() && hand == None && carried == 0
      modifies this, queue, acc
      ensures Valid() && Unread() == [] && observed == old(observed) + old(queue.ch)
      ensures queue.offers == old(queue.offers) && |queue.offers| == |observed| + s.localDrops
      ensures s.lost == acc.lost && s.recv == acc.recv && s.kernelDrops == kernelDrops
      ensures Stats.NothingRejected(acc.log) ==>
                var never := |NeverArrived(queue.offers, acc.log)|;
                && s.lost <= never + s.localDrops
                && (|Elems(acc.log)| <= Stats.MAX_SEEN_ENTRIES ==> never <= s.lost)
    {
      hide Stats.Run, Hub.Sift, Numbers;
      Drain();
      PullDrops();
      ApplyDrops();
      acc.SetKernelDrops(kernelDrops);
      s := Snapshot(now);
    }

    ghost function Unread(): seq<Hub.Observation>
      reads this, queue
    {
      HandList(hand) + queue.ch
    }

    /** Ring-overflow drops, whether still in the hub, on their way, or reported. */
    ghost function Drops(): nat
      reads this, acc, queue
    {
      acc.localDrops + carried + queue.localDrops
    }

    /** Everything that passed the gates was observed, is still unread, or is a counted local drop. */
    ghost predicate Balanced()
      reads this, acc, queue
    {
      |queue.offers| == |observed| + |Unread()| + Drops()
    }

    /** The reported loss brackets the network's loss. */
    ghost predicate Honest()
      reads this, acc, queue
    {
      Stats.NothingRejected(acc.log) ==>
        var never := |NeverArrived(queue.offers, acc.log)|;
        && acc.lost <= never + |Unread()| + Drops()
        && (|Elems(acc.log)| <= Stats.MAX_SEEN_ENTRIES ==> never <= acc.lost)
    }

    lemma ValidIsHonest()
      requires Valid()
      ensures Balanced() && Honest()
    {
      SiftCovers(queue.offers);
      assert observed + HandList(hand) + queue.ch == observed + Unread();
      if Stats.NothingRejected(acc.log) {
        HonestLoss(queue.offers, observed, Unread(), queue.localDrops + queue.pulled);
      }
    }

    /** Whatever the interleaving so far, a snapshot brackets the network's loss; once the channel is
        drained and the drop count delivered, by the reported local drops alone. */
    method Snapshot(now: int) returns (s: Accumulator.Snapshot)
      requires Valid()
      ensures Balanced() && Honest()
      ensures s.lost == acc.lost && s.localDrops == acc.localDrops && s.recv == acc.recv
      ensures s.kernelDrops == acc.kernelDrops
      ensures Stats.NothingRejected(acc.log) && Unread() == [] && carried == queue.localDrops == 0 ==>
                var never := |NeverArrived(queue.offers, acc.log)|;
                && s.lost <= never + s.localDrops
                && (|Elems(acc.log)| <= Stats.MAX_SEEN_ENTRIES ==> never <= s.lost)
    {
      ValidIsHonest();
      s := acc.TakeSnapshot(now);
    }
  }
}
