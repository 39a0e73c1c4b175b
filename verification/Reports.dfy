/** The numbers finally reported for each direction (cmd/dropline/serve.go, cmd/dropline/trace.go). */
module Reports {
  import opened Prelude
  import Stats
  import Sender
  import opened AggregatorState

  // ------------------------------------------------------------------
  // Forward direction: the server never learns how much was sent
  // ------------------------------------------------------------------

  datatype Final = Final(sent: Int64, recv: int, loss: int)

  /** Sent is the highest sequence number plus one, in 64-bit arithmetic. */
  function BuildFinal(recv: int, lost: int, maxSeq: Uint64): Final {
    Final(if recv > 0 || lost > 0 then Wrap64(Wrap64(maxSeq) + 1) else 0, recv, lost)
  }

  function FinalOf(log: seq<Uint64>): Final {
    BuildFinal(Stats.Run(log).recv, Stats.Run(log).lost, TopOf(log))
  }

  function TopOf(log: seq<Uint64>): (m: Uint64)
    ensures m == Stats.Run(log).maxSeq
  {
    Stats.AlwaysBounded(log);
    MaxSeqOfNone(log);
    Stats.Run(log).maxSeq
  }

  lemma {:induction false} MaxSeqOfNone(log: seq<Uint64>)
    ensures !Stats.Run(log).seenAny ==> Stats.Run(log).maxSeq == 0
  {
    if log != [] {
      MaxSeqOfNone(Front(log));
    }
  }

  /** Below the duplicate-set cap the final report adds up exactly when the addition did not wrap. */
  lemma {:induction false} FinalAddsUpIff(log: seq<Uint64>)
    requires |Elems(Stats.Accepted(log))| <= Stats.MAX_SEEN_ENTRIES
    ensures var f := FinalOf(log);
            f.sent == f.recv + f.loss <==> Stats.Run(log).maxSeq != MAX_INT64
  {
    hide Stats.Run, Stats.Accepted;
    Stats.ExactBelowCap(log);
    Stats.AlwaysBounded(log);
    MaxSeqOfNone(log);
  }

  /** The one packet that makes it wrap is accepted. */
  lemma FinalWraps()
    ensures var f := FinalOf([MAX_INT64]); f.sent == -MAX_INT64 - 1 && f.recv + f.loss == MAX_INT64 + 1
  {
    var s: Uint64 := MAX_INT64;
    var log := [s];
    assert Front(log) == [] && Last(log) == s;
    assert Stats.Run([]) == Stats.FRESH_COUNTERS;
  }

  /** Every sequence number that arrived was stamped by the sender. */
  ghost predicate SentBy(log: seq<Uint64>, sent: seq<Sender.Packet>) {
    forall s | s in log :: exists p :: p in sent && p.seqNo == s
  }

  lemma SeqBelowCount(log: seq<Uint64>, sent: seq<Sender.Packet>, clock: seq<int>, stamps: seq<nat>)
    requires Sender.Stamped(sent, clock, stamps) && SentBy(log, sent)
    ensures forall s | s in log :: s < |sent|
  {
    forall s | s in log
      ensures s < |sent|
    {
      var p :| p in sent && p.seqNo == s;
      var n :| 0 <= n < |sent| && sent[n] == p;
    }
  }

  /** The final report counts what was sent up to the last arrival: it is exact when the sender's last
      packet arrived, and otherwise short by exactly the packets after the last arrival. */
  lemma {:induction false} FinalMissesOnlyTheTail(
      log: seq<Uint64>, sent: seq<Sender.Packet>, clock: seq<int>, stamps: seq<nat>)
    requires Sender.Stamped(sent, clock, stamps) && SentBy(log, sent) && |sent| <= MAX_INT64
    requires log != [] && Stats.NothingRejected(log) && |Elems(log)| <= Stats.MAX_SEEN_ENTRIES
    ensures var f := FinalOf(log);
            && f.sent == f.recv + f.loss <= |sent|
            && (forall s: Uint64 | f.sent <= s :: s !in log)
            && (f.sent - 1) in Elems<int>(log)
  {
    hide Stats.Run, Stats.Accepted;
    SeqBelowCount(log, sent, clock, stamps);
    Stats.ExactBelowCap(log);
    var top := Stats.Top(log);
    assert top in log;
    FinalAddsUpIff(log);
  }

  // ------------------------------------------------------------------
  // Reverse direction: the server is the sender and says so
  // ------------------------------------------------------------------

  datatype ServerStats = ServerStats(reverseSent: int, reverseDurationS: real)

  datatype ReverseReport = ReverseReport(sent: int, recv: int, lost: int, lossPct: real, durationS: real)

  function RecvOf(v: Option<StreamView>): int { if v == None then 0 else v.value.recv }

  function SentOf(fs: Option<ServerStats>): int { if fs == None then 0 else fs.value.reverseSent }

  /** The larger of the observed gaps and the server's difference, never negative. */
  function EffectiveLoss(v: Option<StreamView>, fs: Option<ServerStats>): int {
    Max(0, Max(if v == None then 0 else v.value.lost, SentOf(fs) - RecvOf(v)))
  }

  method ReverseStreamReport(v: Option<StreamView>, fs: Option<ServerStats>) returns (r: Option<ReverseReport>)
    ensures r == None <==> v == None && (fs == None || (fs.value.reverseSent == 0 && fs.value.reverseDurationS == 0.0))
    ensures r.Some? ==>
              && r.value.sent == SentOf(fs) && r.value.recv == RecvOf(v)
              && r.value.lost == EffectiveLoss(v, fs)
              && r.value.durationS == (if fs == None then 0.0 else fs.value.reverseDurationS)
              && r.value.lossPct == LossPctOf(r.value.sent, r.value.recv, r.value.lost)
  {
    if v == None && (fs == None || (fs.value.reverseSent == 0 && fs.value.reverseDurationS == 0.0)) {
      return None;
    }
    var sent, durationS := 0, 0.0;
    if fs.Some? {
      sent, durationS := fs.value.reverseSent, fs.value.reverseDurationS;
    }
    var recv, effLoss := 0, 0;
    if v.Some? {
      recv, effLoss := v.value.recv, v.value.lost;
    }
    var gap := sent - recv;
    if gap > effLoss {
      effLoss := gap;
    }
    if effLoss < 0 {
      effLoss := 0;
    }
    var lossPct := 0.0;
    if sent > 0 {
      lossPct := effLoss as real / sent as real * 100.0;
    } else if recv + effLoss > 0 {
      lossPct := effLoss as real / (recv + effLoss) as real * 100.0;
    }
    r := Some(ReverseReport(sent, recv, effLoss, lossPct, durationS));
  }

  /** The denominator prefers the server's count. */
  function LossPctOf(sent: int, recv: int, lost: int): real {
    var whole := if sent > 0 then sent else recv + lost;
    if whole > 0 then lost as real / whole as real * 100.0 else 0.0
  }

  /** The least count that is neither negative nor below what either side knows. */
  lemma EffectiveLossMeaning(v: Option<StreamView>, fs: Option<ServerStats>)
    ensures var e := EffectiveLoss(v, fs);
            && e >= 0 && (v.Some? ==> e >= v.value.lost)
            && (fs.Some? ==> e >= fs.value.reverseSent - (if v == None then 0 else v.value.recv))
            && (|| e == 0 || (v.Some? && e == v.value.lost)
                || (fs.Some? && e == fs.value.reverseSent - (if v == None then 0 else v.value.recv))
                || (fs == None && v.Some? && e == -v.value.recv))
  {
  }

  /** The percentage is the lost share of the server's count or, without one, of what is accounted for. */
  lemma LossPctMeaning(sent: int, recv: int, lost: int)
    ensures sent > 0 ==> LossPctOf(sent, recv, lost) * sent as real == 100.0 * lost as real
    ensures sent <= 0 && recv + lost > 0 ==>
              LossPctOf(sent, recv, lost) * (recv + lost) as real == 100.0 * lost as real
    ensures sent <= 0 && recv + lost <= 0 ==> LossPctOf(sent, recv, lost) == 0.0
  {
    var whole := if sent > 0 then sent else recv + lost;
    if whole > 0 {
      var q := lost as real / whole as real;
      assert q * whole as real == lost as real;
    }
  }

  lemma PercentInRange(part: int, whole: int)
    requires 0 <= part <= whole && whole > 0
    ensures 0.0 <= part as real / whole as real * 100.0 <= 100.0
  {
    FractionInRange(part as real, whole as real);
  }

  lemma FractionInRange(a: real, b: real)
    requires 0.0 <= a <= b && b > 0.0
    ensures 0.0 <= a / b <= 1.0
  {
    var x := a / b;
    assert x * b == a;
    assert (1.0 - x) * b == b - a;
  }

  /** The sequence numbers that were sent and never arrived. */
  function NeverArrived(log: seq<Uint64>, sent: nat): set<int> { Range(sent) - Elems<int>(log) }

  lemma ElemsWithin(log: seq<Uint64>, sent: nat)
    requires forall s | s in log :: s < sent
    ensures |NeverArrived(log, sent)| == sent - |Elems<int>(log)|
  {
    SubsetCard(Elems<int>(log), Range(sent));
  }

  /** Everything the server sent that the client did not see is loss, the tail included. */
  lemma {:induction false} ReverseLossCounts(
      log: seq<Uint64>, sent: seq<Sender.Packet>, clock: seq<int>, stamps: seq<nat>, v: StreamView, fs: ServerStats)
    requires Sender.Stamped(sent, clock, stamps) && SentBy(log, sent)
    requires Stats.NothingRejected(log) && |Elems(log)| <= Stats.MAX_SEEN_ENTRIES
    requires v.recv == Stats.Run(log).recv && v.lost == Stats.Run(log).lost && fs.reverseSent == |sent|
    ensures var lost := EffectiveLoss(Some(v), Some(fs));
            0 <= v.lost <= lost == |sent| - v.recv == |NeverArrived(log, |sent|)| <= |sent|
  {
    hide Stats.Run, Stats.Accepted, NeverArrived;
    SeqBelowCount(log, sent, clock, stamps);
    Stats.ExactBelowCap(log);
    SameElems(log);
    ElemsWithin(log, |sent|);
    if log != [] {
      assert Stats.Top(log) in log;
    }
  }

  /** The reverse report is exact, and its percentage is a possible one. */
  lemma {:induction false} ReverseReportExact(
      log: seq<Uint64>, sent: seq<Sender.Packet>, clock: seq<int>, stamps: seq<nat>, v: StreamView, fs: ServerStats)
    requires Sender.Stamped(sent, clock, stamps) && SentBy(log, sent)
    requires Stats.NothingRejected(log) && |Elems(log)| <= Stats.MAX_SEEN_ENTRIES
    requires v.recv == Stats.Run(log).recv && v.lost == Stats.Run(log).lost && fs.reverseSent == |sent|
    ensures var lost := EffectiveLoss(Some(v), Some(fs));
            && v.lost <= lost == |sent| - v.recv == |NeverArrived(log, |sent|)|
            && 0.0 <= LossPctOf(|sent|, v.recv, lost) <= 100.0
  {
    hide Stats.Run, Sender.Stamped, SentBy, EffectiveLoss, NeverArrived, Stats.NothingRejected;
    ReverseLossCounts(log, sent, clock, stamps, v, fs);
    PercentOfAll(|sent|, v.recv, EffectiveLoss(Some(v), Some(fs)));
  }

  lemma PercentOfAll(sent: nat, recv: int, lost: int)
    requires 0 <= lost == sent - recv <= sent
    ensures 0.0 <= LossPctOf(sent, recv, lost) <= 100.0
  {
    if sent > 0 {
      PercentInRange(lost, sent);
    }
  }

  lemma SameElems(log: seq<Uint64>)
    ensures Elems<int>(log) == Elems<Uint64>(log)
  {
  }
}
