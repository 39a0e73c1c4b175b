# dropline: verified model of its loss and probe accounting

dropline measures packet loss between two hosts and walks the path with probes. Its promise is that the
numbers are honest. This project models the code behind those numbers in Dafny and proves what makes them so.

- **Loss pipeline.** A UDP demultiplexer feeds bounded per-flow queues (`Hub.dfy`), a receiver moves packets from
  its queue into a streaming accumulator (`Receiver.dfy`, `Accumulator.dfy`), and `Server.dfy` runs any number of
  sessions under an arbitrary schedule. `Stats.dfy` and `Jitter.dfy` give the accumulator's algorithm and, apart
  from it, what the counters are supposed to mean. `Timeline.dfy`, `AggregatorState.dfy` and `Aggregator.dfy`
  turn cumulative counters that can go down into per-second buckets, on values and on the heap;
  `TimelineSeconds.dfy` says which second shows what, and `TimelineTruth.dfy` ties buckets back to packets.
- **Probe accounting.** `HopStats.dfy`, `ProbeTable.dfy` and `ProbeBook.dfy` hold what both hop probers share;
  `IcmpSweep.dfy` and `TcpSweep.dfy` are the probers as protocols over whole runs. `ProbeHistory.dfy` says, from a
  record of what happened alone, what every published figure should be, and `ProbeRuns.dfy` proves that it is.
  `PortAllocator.dfy` walks a port range with a cursor that wraps, `TcpLaps.dfy` decides exactly which sweeps may
  reuse a port, `TcpStall.dfy` and `TcpTiming.dfy` say what ageing out has to do with it, `PortRange.dfy` reserves
  ranges, and `Probers.dfy` shows that the objects follow the protocols. `ReverseTable.dfy` and `Replication.dfy`
  carry the server's hop table to the client, and `ReverseTruth.dfy` ties the client's rows back to the server's
  record.
- **Verdicts.** `Sorting.dfy`, `Quantiles.dfy`, `Correlate.dfy`, `Verdicts.dfy` and `EndOfTest.dfy` are
  the algorithms; `Convictions.dfy` states their outcome as evidence, second by second.
- **Control channel, sender, reports.** `Framing.dfy`, `Sender.dfy`, `Reports.dfy`.
- `Prelude.dfy` and `Modular.dfy` are vocabulary and arithmetic.

Conventions. Every lock-held region is one atomic step. Channels are bounded sequences with a closed flag. Times
are integer nanoseconds, or reals where the source uses fractional seconds. Floating-point numbers are exact
reals; standard deviations are carried as variances. 64-bit and 16-bit wrap-around is written out where the code
relies on it. Map iteration takes keys in an arbitrary order. What code updates in place is a class whose methods
are proved against functions on values; what the source promises is then proved of those functions and, through
the class invariants, of every run.

Where code and comments disagree the model follows the code: the comment on `Correlate` gives a 0.5 percent
floor and a strict comparison (`internal/agg/correlate.go:34-36`), the code a 1.0 percent floor and `>=`
(`internal/agg/correlate.go:80-84`).

Some promises hold only under a condition. For each the project proves the condition exactly and exhibits a state
that violates it:

- Recv counts distinct packets (`internal/stream/stats.go:119-147`): exactly while every repeat is remembered
  (`Stats.RecvExactIff`); `Stats.RepeatPastCapCountsAgain` is a log past the cap.
- A port slot is fresh when the cursor comes round (`internal/probe/probe_tcp_unix.go:86-91`, `280-288`): exactly
  when the sweep has room (`TcpLaps.SweepSafeIff`, `TcpLaps.BooksSafeIff`: at every cursor for a sweep that fits
  in the range, away from the wrap for one that does not). It lacks room in two ways. Too many probes can be live, which every prober reaches that never ages probes out (`TcpStall.StalledProberIsUnsafe`).
  Or the 32-bit cursor wraps: a range is safe at every cursor exactly when it divides 2^32
  (`TcpLaps.EveryCursorSafeIff`), and `TcpLaps.CursorWrapCollides` is a sweep across the wrap.
- The final report's Sent is Recv + Loss (`cmd/dropline/serve.go:773-776`): exactly when the addition does not
  wrap (`Reports.FinalAddsUpIff`); `Reports.FinalWraps` is the packet for which it does.
- Merged verdicts split back into their sources (`cmd/dropline/trace.go:1267-1281`): for the ICMP half, exactly
  when no TTL that only TCP flagged is flagged twice (`Verdicts.MergeRoundTrip`); `Verdicts.RepeatedVerdictLeaks`
  is such a list. The program itself never builds one (`EndOfTest.MergedKeepsSources`).

Check the project with `dafny verify dfyconfig.toml`.

## Model

| member | source | states |
|---|---|---|
| Stats.ExactBelowCap | internal/stream/stats.go:121-180 | below the duplicate-set cap, in any arrival order: Recv is the number of distinct accepted sequence numbers, Lost the size of {0..MaxSeq} minus them, Duplicates the rest, and Recv + Lost = MaxSeq + 1 |
| Stats.RunMeaning | internal/stream/stats.go:121-180 | for every packet log the running counters are related to set cardinalities of the accepted packets: the invariant behind all the accumulator results |
| Stats.RecvExactIff | internal/stream/stats.go:134-147 | Recv equals the true number of distinct packets if and only if every repeat is still remembered when it arrives; then Lost is exact too |
| Stats.ForgottenIff | internal/stream/stats.go:134-147 | no packet is counted twice exactly when every repeat is recognised |
| Stats.NothingForgottenBelowCap | internal/stream/stats.go:14-25 | with at most 2^18 distinct packets the duplicate set remembers all of them |
| Stats.CountedMeaning | internal/stream/stats.go:125-179 | a packet raises Recv and is timed for the jitter exactly when it passes both gates and is not a remembered repeat; below the cap, exactly when it passes and has not arrived before |
| Stats.RepeatPastCapCountsAgain | internal/stream/stats.go:134-147 | a concrete log past the cap for which Recv exceeds the number of distinct packets by one |
| Stats.AlwaysBounded | internal/stream/stats.go:121-180 | for every log: at most 2^18 remembered entries, Lost never above the true number of missing packets, Recv + Lost at least the expected sequence number, Lost < expected <= 2^63 |
| Stats.AcceptedFitInt64 | internal/stream/stats.go:121-133 | no accepted packet lets the sequence arithmetic leave 64 bits |
| Stats.RollbackGuardHolds | internal/stream/stats.go:168-176 | while no repeat was forgotten, a late packet always finds Lost > 0: the defensive guard never fires |
| Stats.OrderDoesNotMatter | internal/stream/stats.go:121-180 | two orders of the same packets, neither with rejections, give the same Recv, Lost, Duplicates and MaxSeq |
| Stats.BurstMeaning | internal/stream/stats.go:204-223 | for every log the histogram is the histogram of the newly opened gaps, whose lengths sum to at most Lost + OutOfOrder, with equality when nothing was forgotten, and whose number is at most Recv - OutOfOrder |
| Stats.HistogramBounds | internal/stream/stats.go:204-223 | the five buckets partition the bursts, and bracket their total length from both sides |
| Stats.BurstsAccountForLoss | internal/stream/stats.go:150-223 | below the cap the histogram brackets Lost + OutOfOrder, Max is the longest burst, and bursts number at most Recv - OutOfOrder |
| Jitter.RunIsRfc3550 | internal/stream/stats.go:182-202 | the jitter field is the estimator of section 6.4.1 of RFC 3550 over the plausible transit times |
| Jitter.TransitMeaning | internal/stream/stats.go:186-190 | a transit time is the 64-bit difference in milliseconds of a million nanoseconds, and plausible up to one hour either way |
| Jitter.JitterBounded | internal/stream/stats.go:182-202 | jitter stays between zero and the largest transit change |
| Jitter.SkewCancels | internal/stream/stats.go:182-202 | adding one constant to every transmit stamp changes nothing while all transits stay plausible, 64-bit subtraction included |
| Accumulator.Accumulator.Observe | internal/stream/stats.go:121-180 | the in-place update refines the specification: the fields always hold the meaning of the log of everything observed |
| Accumulator.Accumulator.Account | internal/stream/stats.go:125-147 | rejects, recognises a repeat, or counts, exactly as the specification |
| Accumulator.Accumulator.Advance | internal/stream/stats.go:148-177 | opens a gap or takes one loss back, without 64-bit wrap-around |
| Accumulator.Accumulator.RecordBurst | internal/stream/stats.go:204-223 | puts one gap into its histogram bucket and raises Max |
| Accumulator.Accumulator.UpdateJitter | internal/stream/stats.go:182-202 | one estimator step on the fields |
| Accumulator.Accumulator.AddLocalDrop | internal/stream/stats.go:229-233 | adds to LocalDrops only |
| Accumulator.Accumulator.SetKernelDrops | internal/stream/stats.go:235-239 | replaces KernelDrops only |
| Accumulator.Accumulator.TakeSnapshot | internal/stream/stats.go:244-260 | the published counters are the log's meaning, exact below the cap and never above the true loss |
| Hub.FlowQueue.CaptureRemote | internal/stream/hub.go:64-73 | the first address stays |
| Hub.FlowQueue.Accept | internal/stream/hub.go:152-157 | takes a packet that passed both gates: keeps it if the ring has room, counts it as a local drop otherwise, and captures the source of the very first such packet |
| Hub.EnteringMeaning | internal/stream/hub.go:149-151 | what enters a flow is exactly what was addressed to it with its token (any, if it has none) from its peer (anyone, if it has none) |
| Hub.FlowQueue.Refuse | internal/stream/hub.go:149-152 | a packet that fails a gate changes nothing: not the ring, not the drop count, not the captured remote |
| Hub.FlowQueue.Close | internal/stream/hub.go:264-264 | a channel is closed at most once; buffered packets stay readable |
| Hub.FlowQueue.Receive | internal/stream/receiver.go:315-333 | takes the oldest buffered packet |
| Hub.FlowQueue.PullLocalDrops | internal/stream/hub.go:240-240 | hands over the drop count and zeroes it, losing none |
| Hub.HubFlow.Release | internal/stream/hub.go:259-268 | idempotent; closes its own channel, and leaves the registry alone when the id has since been registered to someone else |
| Hub.CanonicalGate | internal/stream/hub.go:141-149 | comparing a source against the stored address accepts exactly the peers whose address is the same once IPv4-mapped IPv6 is folded |
| Hub.CanonicalMeaning | internal/stream/hub.go:141-149 | folding turns an IPv4-mapped IPv6 address into its IPv4 address and leaves every other address alone |
| Hub.Hub.TryRegister | internal/stream/hub.go:189-220 | fails exactly when the id is taken; otherwise mints an open queue of the requested size, with the folded peer address and the token, and registers it |
| Hub.Hub.Dispatch | internal/stream/hub.go:140-160 | only the flow registered under the packet's id can change: it hears the packet, and is offered it exactly when the packet carries the registered token, unless that is 0, and comes from the registered peer once addresses are folded, unless none was given |
| Hub.Hub.Unregister | internal/stream/hub.go:262-265 | deletes one registration and closes that channel: a channel is open exactly while it is the registered one |
| Hub.Hub.CloseAll | internal/stream/hub.go:224-231 | closes every open channel once and empties the registry |
| Receiver.HonestLoss | internal/stream/receiver.go:240-247 | offers = observed + unread + drops; without rejections Lost <= sequence numbers that never reached the hub + unread + local drops, for every log, and below the duplicate-set cap Lost is at least the first of these |
| Receiver.SiftCovers | internal/stream/hub.go:152-157 | every offer was either queued or dropped, in number and as a set of sequence numbers |
| Receiver.Receiver.Take | internal/stream/receiver.go:318-330 | moves the oldest packet from the channel into the goroutine's hand |
| Receiver.Receiver.ObserveHand | internal/stream/receiver.go:332-332 | accounts for exactly the packet in hand |
| Receiver.Receiver.Drain | internal/stream/receiver.go:316-327 | on cancellation everything still buffered is observed, in order |
| Receiver.Receiver.PullDrops | internal/stream/receiver.go:244-244 | takes the hub's drop count, conserving the total |
| Receiver.Receiver.ApplyDrops | internal/stream/receiver.go:244-246 | delivers the pulled count to the accumulator |
| Receiver.Receiver.Finish | internal/stream/receiver.go:224-235 | drain, collect drops, snapshot: every offer is then observed or reported as a local drop, and reported loss brackets network loss by the reported local drops alone |
| Receiver.Receiver.Snapshot | internal/stream/receiver.go:206-215 | at any moment of any interleaving the snapshot brackets network loss by what is unread or dropped locally |
| Receiver.Receiver.ValidIsHonest | internal/stream/receiver.go:240-247 | the state invariant implies balance and the honest-loss sandwich |
| Server.Server.Register | internal/stream/hub.go:189-220 | fails exactly when the id is taken; otherwise one fresh session on one open flow |
| Server.Server.Dispatch | internal/stream/hub.go:140-160 | over all sessions: only the one registered under the packet's id hears it, and it is offered the packet exactly when token and peer are those it was registered with |
| Server.Server.Release | internal/stream/hub.go:259-268 | a session's release leaves every other session untouched, also after its id was reused |
| Server.Server.Shutdown | internal/stream/hub.go:224-231 | afterwards no flow is registered and every session's channel is closed |
| Server.Server.Take | internal/stream/receiver.go:318-330 | one session reads one packet; the others are untouched |
| Server.Server.Observe | internal/stream/receiver.go:332-332 | one session accounts for one packet; the others are untouched |
| Server.Server.PullDrops | internal/stream/receiver.go:244-244 | one session's drops are conserved; the others are untouched |
| Server.Server.ApplyDrops | internal/stream/receiver.go:244-246 | one session's drops are conserved; the others are untouched |
| Server.Server.Play | internal/stream/hub.go:107-162 | any schedule of registrations, dispatches, reads, drop pulls, releases and shutdowns over any number of sessions: each session was offered exactly the packets addressed to its id between its registration and its release that have its token and its peer, its captured remote is the source of the first of these, its offers balance and its loss is honest |
| Server.Server.AllGated | internal/stream/hub.go:140-157 | the same gates for every session at any moment: offers and captured remote are decided by what was heard |
| Server.Server.Perform | internal/stream/hub.go:107-162 | one event of any kind keeps the board of who is registered under which id and who has heard what |
| Server.Server.AllHonest | internal/stream/receiver.go:240-247 | the server invariant implies the sandwich for every session |
| HopStats.EstimatorsMean | internal/probe/hopstats.go:46-78 | after any replies n * mean = sum, and m2 = sum of squares - n * mean^2, over exact reals |
| HopStats.ExtremesMean | internal/probe/hopstats.go:52-74 | best and worst are the least and greatest reply, and the smoothed baseline lies between them |
| HopStats.MeanWithinExtremes | internal/probe/hopstats.go:64-67 | best <= mean <= worst |
| HopStats.DispersionMeaning | internal/probe/hopstats.go:83-88 | m2 is the sum of squared deviations from the published mean, and not negative |
| HopStats.VarianceHasRoot | internal/probe/hopstats.go:83-88 | so the square root the source takes exists |
| HopStats.BaselineMeaning | internal/probe/hopstats.go:70-74 | the baseline is a weighted sum of all replies: one with k later replies weighs 0.2 * 0.8^k, and the first of n weighs 0.8^(n-1) |
| HopStats.LossPctInRange | internal/probe/hopstats.go:95-100 | recv + inflight <= sent makes the published percentage one in [0,100], and zero exactly when nothing settled unanswered |
| HopStats.HopState.RecordReply | internal/probe/hopstats.go:46-78 | the in-place update refines the value-level one |
| ProbeTable.RegisterKeepsIff | internal/probe/probe_tcp_unix.go:322-326 | registering keeps the books (inflight counter = map entries with that ttl, recv + inflight <= sent, least terminus) if and only if the key is not live |
| ProbeTable.OwnEntryIff | internal/probe/probe_tcp_unix.go:409-444 | settling or rolling back under one's own ttl keeps the books if and only if the entry found is one's own |
| ProbeTable.RollbackOwnKeeps | internal/probe/probe_tcp_unix.go:409-424 | a rollback of one's own probe keeps the books |
| ProbeTable.SettleOwnKeeps | internal/probe/probe_tcp_unix.go:538-558 | a reply settled under the stored ttl keeps the books, and terminus stays the least flagged ttl; what it records is in `ProbeHistory.TableStep` |
| ProbeTable.PruneKeeps | internal/probe/probe_tcp_unix.go:563-575 | ageing out keeps the books |
| ProbeTable.ExpireOneMore | internal/probe/probe_tcp_unix.go:563-575 | the age-out result does not depend on the order in which the map yields its keys |
| ProbeTable.BalancedLossInRange | internal/probe/hopstats.go:95-100 | balanced books publish percentages in [0,100] |
| ProbeTable.StatsUpToMeaning | internal/probe/probe.go:91-105 | a published table lists exactly the probed hops up to the cap, each once, ascending |
| ProbeTable.ContiguousSnapshot | internal/probe/probe.go:91-105 | once every hop up to the cap was probed the table is exactly 1..cap, and only its last row can carry the terminus flag |
| ProbeTable.LossTimeoutMeaning | internal/probe/probe.go:75-85 | a probe is given up after two seconds or two intervals, whichever is longer |
| ProbeTable.MillisMeaning | internal/probe/probe_unix.go:295-295 | round trips are in milliseconds of a million nanoseconds |
| ProbeBook.Book.Enlist | internal/probe/probe_unix.go:211-213 | the in-place registration refines the table operation |
| ProbeBook.Book.Reply | internal/probe/probe_unix.go:283-302 | in place: the stored ttl's hop records the reply with the time since the stored send, whether or not it is the destination's; the table operation whose meaning `ProbeHistory.TableStep` proves |
| ProbeBook.Book.RecordTerminus | internal/probe/probe_tcp_unix.go:426-444 | the in-place update refines the table operation |
| ProbeBook.Book.RollbackProbe | internal/probe/probe_tcp_unix.go:409-424 | the in-place update refines the table operation |
| ProbeBook.Book.ExpireOne | internal/probe/probe_unix.go:335-340 | one expired probe leaves the map and its hop's counter |
| ProbeBook.Book.PruneInflight | internal/probe/probe_unix.go:330-342 | whatever order the map is ranged in, exactly the stale probes are gone |
| ProbeBook.Book.Snapshot | internal/probe/probe.go:91-105 | the loop publishes the table the specification names |
| ProbeHistory.EachProbeSettlesOnce | internal/probe/probe_unix.go:283-342 | read off a record of what happened: every probe of a hop is exactly one of pending, answered, taken back, given up, and the four counts add up to the probes sent |
| ProbeHistory.TableStep | internal/probe/probe_tcp_unix.go:538-575 | any step on the table keeps: the in-flight map is the set of pending probes, each under its own key; sent = launched - taken back; recv = the probes that met a packet; the round-trip figures, first address and terminus flag are those of the packets that found a probe of that hop, in order |
| ProbeHistory.HopStep | internal/probe/probe_unix.go:283-302 | the same for one hop: each packet, destination's or not, that finds a live probe of the hop is recorded there once, with the time since that probe left, and no other packet is recorded anywhere |
| ProbeHistory.InflightAfter | internal/probe/probe_unix.go:330-342 | what is in flight after each kind of step; ageing out keeps a probe if and only if it is not older than the cutoff |
| ProbeHistory.RowOfHop | internal/probe/probe.go:91-105 | a published row from the record alone: sent = recv + inflight + given up; LossPct is the given-up share of the settled probes; last, best, worst, mean, sample variance and decaying baseline of the answered probes' round trips; first address seen; terminus if some answer was the destination's |
| ProbeHistory.SnapshotTells | internal/probe/probe.go:91-105 | a published table lists, ascending, exactly the hops up to the nearest that answered as the destination which have a probe not taken back, and every row is the one the record tells |
| ProbeRuns.IcmpRunTold | internal/probe/probe_unix.go:121-357 | over every run of the ICMP prober the table tells the record of the run |
| ProbeRuns.IcmpSnapshotTold | internal/probe/probe_unix.go:283-363 | and so does everything it publishes |
| ProbeRuns.IcmpSweepReaches | internal/probe/probe_unix.go:180-192 | each sweep goes from hop 1 to the nearest hop that has answered as the destination, or to the last |
| ProbeRuns.LaunchKeys | internal/probe/probe_unix.go:203-211 | the n-th probe to leave carries sequence number 1 + n mod 65535 |
| ProbeRuns.TcpRunTold | internal/probe/probe_tcp_unix.go:253-575 | the same over every interleaving of the TCP prober's goroutines whose sweeps have room: a dialer that sees the destination counts as a packet under its own port, a failed dial takes its probe back |
| ProbeRuns.TcpSnapshotTold | internal/probe/probe_tcp_unix.go:581-600 | and so does everything it publishes |
| ProbeRuns.TcpSweepReaches | internal/probe/probe_tcp_unix.go:253-277 | each sweep has one goroutine for each hop up to the nearest that has answered as the destination, or for all |
| PortAllocator.NextSrcPortMeaning | internal/probe/probe_tcp_unix.go:289-300 | wherever the cursor stands, its 32-bit wrap included: the allocator returns the first free slot in cursor order and advances past it, and fails only after range tries |
| PortAllocator.FullTurnVisitsAllIff | internal/probe/probe_tcp_unix.go:289-300 | range steps of the cursor visit every slot, hence each once, if and only if they do not cross the wrap or the range divides 2^32 |
| PortAllocator.AllocatorFailsIff | internal/probe/probe_tcp_unix.go:289-300 | the allocator fails if and only if every slot under its next range steps is in flight; away from the wrap, if and only if every slot is |
| PortAllocator.BeforeSeam | internal/probe/probe_tcp_unix.go:293-294 | which slots the cursor visits just before it wraps |
| PortAllocator.AfterSeam | internal/probe/probe_tcp_unix.go:293-294 | and just after |
| TcpSweep.AllocationAdvances | internal/probe/probe_tcp_unix.go:289-300 | in a sweep with room, what a call passes over was live or handed out, and what it returns is neither |
| TcpSweep.InitialSafe | internal/probe/probe_tcp_unix.go:145-184 | a fresh prober is safe |
| TcpSweep.RunIsSafe | internal/probe/probe_tcp_unix.go:253-326 | over every interleaving of allocate, register, terminus, rollback, reply and age-out steps, for any number of sweeps that have room when they start, at any cursor: ports handed out in a sweep are distinct and every counter is backed by the map |
| TcpSweep.RunIsClean | internal/probe/probe_tcp_unix.go:409-444 | no step of such a run hands out a port twice, overwrites a live entry, or deletes another ttl's entry |
| TcpSweep.RunAccounts | internal/probe/probe_tcp_unix.go:538-575 | inflight = number of live entries of that ttl, recv + inflight <= sent, and LossPct in [0,100], in every reachable state |
| TcpLaps.SweepSafeIff | internal/probe/probe_tcp_unix.go:253-300 | no interleaving of a sweep hands a port out twice if and only if it has one TTL, or live + TTLs fit in the range and no lap across the wrap of the cursor is open to it: at every cursor for a sweep that fits, and for every sweep away from the wrap |
| TcpLaps.BooksSafeIff | internal/probe/probe_tcp_unix.go:253-326 | the same condition decides whether every interleaving keeps all counters backed by the map |
| TcpLaps.EveryCursorSafeIff | internal/probe/probe_tcp_unix.go:293-294 | a slice of at least two slots is safe for every sweep that fits, at every cursor and under every interleaving, if and only if its size divides 2^32 |
| TcpLaps.RoomIff | internal/probe/probe_tcp_unix.go:289-300 | when a sweep has room: the general condition on its walk, reduced to a check on live ports, width and cursor |
| TcpLaps.RoomySweepIsSafe | internal/probe/probe_tcp_unix.go:253-326 | a sweep with room is safe in ports and books, with no restriction on cursor or fit |
| TcpLaps.FitsIsRoomy | internal/probe/probe_tcp_unix.go:253-300 | away from the wrap, one slot per live port and per TTL is room enough |
| TcpLaps.ClearAndFittingIsRoomy | internal/probe/probe_tcp_unix.go:289-300 | at every cursor, a fit with no lap across the wrap is room enough |
| TcpLaps.AllocationSucceeds | internal/probe/probe_tcp_unix.go:289-300 | there a waiting goroutine always finds a port, within one turn, neither live nor handed out |
| TcpLaps.LapIsUnsafe | internal/probe/probe_tcp_unix.go:253-326 | every lap within reach, at any cursor, yields an interleaving that hands a port out twice and another that tears the books |
| TcpLaps.LapCollides | internal/probe/probe_tcp_unix.go:289-326 | and how: goroutines that allocate and register in turn bring two others to the same unregistered port |
| TcpLaps.CollisionTearsBooks | internal/probe/probe_tcp_unix.go:322-326 | two registrations under one port leave a hop counter that no map entry backs |
| TcpLaps.OverfullHasLap | internal/probe/probe_tcp_unix.go:289-300 | away from the wrap every sweep that does not fit has such a lap |
| TcpLaps.SeamLapIsReachable | internal/probe/probe_tcp_unix.go:293-294 | the laps across the wrap are within reach of every sweep that fits |
| TcpLaps.LapIsSeamLap | internal/probe/probe_tcp_unix.go:293-294 | and they are the only laps of a sweep that fits |
| TcpLaps.CursorWrapCollides | internal/probe/probe_tcp_unix.go:293-294 | a concrete fitting sweep, nothing in flight, three hops at 500 ms: across the wrap port 33434 is handed out twice |
| TcpStall.StalledProberOverfills | internal/probe/probe_tcp_unix.go:253-326 | every fresh prober whose probes are neither answered nor aged out reaches a sweep that does not fit |
| TcpStall.StalledProberIsUnsafe | internal/probe/probe_tcp_unix.go:253-326 | with at least two hops, some run of it from the start leaves a hop counter that no map entry backs |
| TcpTiming.TimelySweepFits | internal/probe/probe_tcp_unix.go:563-590 | in every run under a clock: when the sweep as many sweeps ago as the range was sized for had sent all its probes before the latest age-out's cutoff, the next sweep fits |
| TcpTiming.TimelyRunIsSafe | internal/probe/probe_tcp_unix.go:201-278 | from a fresh prober with the computed range, every interleaving and every clock whose sweeps start timely, and with no lap across the wrap of the cursor open to them, is safe |
| TcpTiming.PunctualIsTimely | internal/probe/probe_tcp_unix.go:86-107 | a schedule whose lateness stays below the slack of the window is timely |
| TcpTiming.WindowSlack | internal/probe/probe_tcp_unix.go:86-107 | the window never falls short of the loss timeout, and leaves a whole interval to spare at one second or more |
| TcpTiming.TimedRunKept | internal/probe/probe_tcp_unix.go:563-575 | each sweep has at most one live probe per hop, sent no later than its recorded time, and after an age-out none older than the cutoff |
| PortRange.SweepsBounded | internal/probe/probe_tcp_unix.go:92-107 | a loss window never spans more than 21 sweeps at the permitted intervals |
| PortRange.RangeSizeBounds | internal/probe/probe_tcp_unix.go:92-107 | the range size is an exact product, at least four slots per hop and below the cap |
| PortRange.RangeCoversWindow | internal/probe/probe_tcp_unix.go:92-107 | the sizing implies the fit of a sweep for probes of sweeps that began strictly inside the loss window |
| PortRange.RangeIsTight | internal/probe/probe_tcp_unix.go:92-107 | a backlog of full sweeps leaves room for the next one if and only if it is at least one sweep short of the computed number |
| PortRange.SweepsPerWindowMeaning | internal/probe/probe_tcp_unix.go:92-107 | the number of sweeps the range is sized for is the least, but not below four, whose starts after the first span the loss timeout |
| PortRange.ClaimsDisjoint | internal/probe/probe_tcp_unix.go:116-137 | under any interleaving of compare-and-swap attempts, and across any number of wraps of the cursor, claims are contiguous, within 16 bits, and pairwise disjoint on the slot line; where on the line each one lies is in `PortRange.ClaimsChained` |
| PortRange.SharedPortMeansWrap | internal/probe/probe_tcp_unix.go:116-137 | two claims can share a port only when they come from different turns of the port space; `PortRange.FittingClaimsAreBackToBack` says which claims share a turn |
| PortRange.AttemptIsPlaced | internal/probe/probe_tcp_unix.go:121-133 | a claim starts exactly at the loaded cursor when it fits in what is left of the turn, and otherwise at the least multiple of the cap above it; its size is the one asked for, or four for none |
| PortRange.ClaimsChained | internal/probe/probe_tcp_unix.go:116-137 | over every interleaving: one claim for each successful swap, of the size asked for, each placed from the end of the one before, the first from the initial cursor; no slot is skipped but to start a turn |
| PortRange.FittingClaimsAreBackToBack | internal/probe/probe_tcp_unix.go:116-137 | claims of one lap that fit together in what is left of a turn lie back to back, so their port ranges are disjoint |
| Probers.TcpProber.NextSrcPort | internal/probe/probe_tcp_unix.go:289-300 | the bounded loop over fields refines the allocator |
| Probers.TcpProber.Allocate | internal/probe/probe_tcp_unix.go:312-319 | first critical section = one protocol step |
| Probers.TcpProber.Enlist | internal/probe/probe_tcp_unix.go:322-326 | second critical section = one protocol step |
| Probers.TcpProber.RecordTerminus | internal/probe/probe_tcp_unix.go:426-444 | one protocol step: the hop of the named ttl records the destination's answer with the time since the dialer's own start |
| Probers.TcpProber.RollbackProbe | internal/probe/probe_tcp_unix.go:409-424 | one protocol step |
| Probers.TcpProber.Receive | internal/probe/probe_tcp_unix.go:538-558 | one protocol step: the packet is recorded as `ProbeHistory.HopStep` says |
| Probers.TcpProber.Emit | internal/probe/probe_tcp_unix.go:581-600 | ages out, then publishes the protocol state's table |
| IcmpSweep.SeqNeverReusedWhileLive | internal/probe/probe_unix.go:202-214 | in every reachable state the next sequence number is in 1..65535 and not live, every live probe is among the last 11220 sends, and the counters are backed by the map |
| IcmpSweep.SeqCycles | internal/probe/probe_unix.go:204-210 | the counter runs through 1..65535, never zero, and repeats only after a whole cycle |
| IcmpSweep.NextSeqIsFree | internal/probe/probe_unix.go:211-211 | a send never overwrites a live entry |
| IcmpSweep.RecentAfterEmit | internal/probe/probe_unix.go:350-352 | what survives the age-out was sent within the last 43 sweeps |
| IcmpSweep.RunKeeps | internal/probe/probe_unix.go:121-168 | the protocol invariant holds over every run of sweeps, replies and age-outs |
| IcmpSweep.EmittedIsContiguous | internal/probe/probe_unix.go:350-363 | every published snapshot is 1..cap, with a terminus flag on its last row at most |
| Probers.IcmpProber.Send | internal/probe/probe_unix.go:203-214 | the locked part of send = one protocol step |
| Probers.IcmpProber.Receive | internal/probe/probe_unix.go:283-302 | the locked part of the receive loop = one protocol step: the packet is recorded as `ProbeHistory.HopStep` says |
| Probers.IcmpProber.Emit | internal/probe/probe_unix.go:350-357 | ages out, then publishes the protocol state's table |
| ReverseTable.ReplicatesIff | internal/agg/aggregator.go:354-382 | after a whole batch of updates the client's table is the server's snapshot if and only if no client row at or below the cap is missing from the snapshot |
| ReverseTable.BatchSoFar | cmd/dropline/serve.go:626-646 | what any number of updates of one batch leave behind |
| ReverseTable.IngestMeaning | internal/agg/aggregator.go:354-382 | one update replaces its own row and removes the rows above its batch's highest TTL, and none when it names no TTL |
| ReverseTable.ReplicationExact | cmd/dropline/serve.go:611-648 | for snapshots that keep listing what they listed, whichever were dropped, the client holds exactly the last one that had rows |
| ReverseTable.EscalatesIff | internal/agg/aggregator.go:387-389 | the path status becomes NAT-terminated exactly when it was ok and some forwarded row ended at a foreign address |
| ReverseTable.Client.IngestReverseHop | internal/agg/aggregator.go:354-393 | the upsert, and the deletion loop in any map order, refine the table operation |
| ReverseTable.Forward | cmd/dropline/serve.go:622-646 | the forwarding loop for one snapshot applies the batch |
| ReverseTable.ForwardAll | cmd/dropline/serve.go:611-648 | a fresh client that is fed forwardable snapshots ends with the last one shown |
| Replication.IcmpReplicationExact | cmd/dropline/serve.go:611-648 | from prober to client: over any run of the ICMP prober and any subset of its snapshots, the client's table equals the last forwarded server table |
| Replication.TcpReplicationExact | cmd/dropline/serve.go:661-720 | the same for the TCP prober, on any interleaving of its goroutines |
| Replication.StepAdvances | internal/probe/probe_tcp_unix.go:253-277 | no protocol step takes back a probe that can no longer be rolled back, nor raises the cap |
| Replication.BuildSnapshotMeaning | internal/probe/probe.go:91-105 | a snapshot lists exactly the probed hops up to the cap |
| Replication.IcmpSnapshotContiguous | internal/probe/probe_unix.go:350-357 | each published ICMP table is non-empty and contiguous |
| Replication.TcpCovers | internal/probe/probe_tcp_unix.go:253-277 | a later TCP snapshot lists every hop an earlier one listed, up to its own last row |
| ReverseTruth.IcmpClientTells | cmd/dropline/serve.go:611-648 | prober, forwarding and client together: whatever subset of the ICMP snapshots got through, each row of the client's table has the sent, recv, loss, address, round-trip figures and terminus tag that the record of the server's run tells, and the listed TTLs are exactly those it tells |
| ReverseTruth.TcpClientTells | cmd/dropline/serve.go:661-720 | the same for the TCP prober, as long as its sweeps have room |
| ReverseTruth.RowKeepsFigures | cmd/dropline/serve.go:626-646 | a row on the wire carries each figure under its own name, and is tagged host or NAT exactly when the hop answered as the destination from the client's or from another address |
| Timeline.TimelineConserves | internal/agg/aggregator.go:104-149 | over any run of readings, hop ingests and resets: buckets ascend, counts are not negative, percentages match their own counts, total StreamRecv = latest Recv - Recv at the last Reset, total StreamLost = latest Lost - lowest Lost since that Reset |
| Timeline.NoResetIsExact | internal/agg/aggregator.go:104-149 | without a reset the totals equal the cumulative counters |
| Timeline.UnwindMeaning | internal/agg/aggregator.go:629-652 | unwinding removes exactly n losses, or all there are, newest bucket first, and reprices what it touched |
| Timeline.ChargeKeeps | internal/agg/aggregator.go:110-142 | one ingest moves the totals by its deltas, with loss floored at zero; which second gains them is in `TimelineSeconds.ReadingLandsOnItsSecond` |
| Timeline.EnsuredKeeps | internal/agg/aggregator.go:598-615 | making room for a second keeps the order, all other buckets and both totals |
| Timeline.PlaceUnique | internal/agg/aggregator.go:607-607 | the binary search and the tail test find the one position that keeps the order |
| TimelineSeconds.ReadingLandsOnItsSecond | internal/agg/aggregator.go:110-142 | a reading whose loss did not fall adds its received and lost deltas to the bucket of the second it was taken in, or of second 0 if before the start, and changes no other bucket |
| TimelineSeconds.CorrectionTakesNewestFirst | internal/agg/aggregator.go:127-136 | a reading whose loss fell still adds its receptions to its own second, and takes losses back only from a second all of whose successors have none left |
| TimelineSeconds.SecondsHoldTheirReadings | internal/agg/aggregator.go:104-149 | over every run of readings, hop ingests and resets: each second shows as received the sum of what its own readings since the last reset reported, and as lost at most what they reported, exactly that when no loss was taken back |
| TimelineSeconds.PublishedSeconds | internal/agg/aggregator.go:104-149 | so for every bucket the aggregator publishes, whatever else it ingests in between |
| TimelineSeconds.PercentMeaning | internal/agg/aggregator.go:138-142 | a bucket's percentage times what was sent in it is a hundred times what it lost, and zero for an empty bucket |
| TimelineTruth.ReadingsAreCumulative | internal/agg/aggregator.go:88-96 | any subsequence of one accumulator's snapshots meets the aggregator's assumptions |
| TimelineTruth.TimelineIsTruth | internal/agg/aggregator.go:104-149 | packets to timeline: below the cap and without a reset the buckets add up to the packets that arrived and the packets that did not |
| AggregatorState.LineIsTimeline | internal/agg/aggregator.go:402-487 | marking, clearing and hop tables never touch the loss timeline |
| AggregatorState.PublishedConserves | internal/agg/aggregator.go:104-149 | the conservation law for whole aggregator runs |
| AggregatorState.OnlyNamedAreSuspect | internal/agg/aggregator.go:402-487 | a hop is flagged, in the live ICMP or TCP table or in that table of a bucket, only if a verdict on that kind of table since the last reset named its TTL |
| AggregatorState.BucketsHoldTheirSecond | internal/agg/aggregator.go:219-306 | over any run there is one bucket per second reported since the last reset, ascending, and it holds the latest ICMP and TCP tables reported for that second |
| AggregatorState.RoomFiles | internal/agg/aggregator.go:598-615 | inserting a bucket in the middle moves no table to another second |
| AggregatorState.LiveIsLatest | internal/agg/aggregator.go:219-306 | the live table of each kind holds the rows most recently reported, through marks and resets |
| AggregatorState.PublishedIsLatest | internal/agg/aggregator.go:531-587 | every published snapshot shows the latest reading's counters with their lost share, the latest table of each kind, and as its time that of the ICMP table just reported or of the latest reading |
| AggregatorState.SilentIff | internal/agg/aggregator.go:402-458 | every operation publishes, except a mark on no TTL at all, which changes nothing |
| Aggregator.Aggregator.Search | internal/agg/aggregator.go:599-607 | tail test and binary search find the one position of a second |
| Aggregator.Aggregator.InsertSlot | internal/agg/aggregator.go:611-613 | append and copy in the backing array, grown when full: one bucket placed, the tail moved up, nothing else changed |
| Aggregator.Aggregator.BucketAt | internal/agg/aggregator.go:598-615 | finds or inserts the bucket of a second, in order, writing only the aggregator's own slice |
| Aggregator.Aggregator.UnwindLoss | internal/agg/aggregator.go:629-652 | the backward loop refines the specification and touches no hop table |
| Aggregator.Aggregator.IngestStream | internal/agg/aggregator.go:104-149 | the in-place ingest is the model step, whose second `TimelineSeconds.ReadingLandsOnItsSecond` names, and publishes its state |
| Aggregator.Aggregator.IngestForwardHop | internal/agg/aggregator.go:219-254 | replaces the live table, files a separate copy under its second, publishes |
| Aggregator.Aggregator.IngestForwardTcpHop | internal/agg/aggregator.go:265-306 | the same for TCP tables; an empty one is not filed |
| Aggregator.Aggregator.MarkSuspects | internal/agg/aggregator.go:402-426 | flags exactly the listed TTLs in place, in the live table and every bucket; silent and without effect on an empty list |
| Aggregator.Aggregator.MarkTcpSuspects | internal/agg/aggregator.go:434-458 | the same for the TCP tables |
| Aggregator.MarkBuckets | internal/agg/aggregator.go:416-422 | marking one bucket's table cannot be seen through another's |
| Aggregator.MarkTcpBuckets | internal/agg/aggregator.go:448-454 | the same for TCP tables |
| Aggregator.Aggregator.Reset | internal/agg/aggregator.go:465-487 | drops the buckets, keeps the cumulative reading and the tables, clears the flags in place |
| Aggregator.Aggregator.SnapshotOf | internal/agg/aggregator.go:531-587 | shows the current state through storage, the bucket slice included, shared with nothing the aggregator may write to |
| Aggregator.Do | internal/agg/aggregator.go:97-487 | any operation: model step, separation, and a snapshot that shares neither the bucket slice nor a hop table |
| Aggregator.Session | internal/agg/aggregator.go:531-587 | any run: read at its end, every snapshot ever published still shows exactly the state of its own moment, and none shares its bucket slice or a hop table with the aggregator |
| Quantiles.PercentileInRange | internal/agg/correlate.go:266-289 | the percentile lies between the least and the greatest value |
| Quantiles.PercentileInterpolates | internal/agg/correlate.go:282-288 | at rank k + f of the sorted values, with 0 <= f < 1, the percentile is (1 - f) times the k-th plus f times the next |
| Quantiles.PercentileMonotone | internal/agg/correlate.go:266-289 | it is monotone in q, also outside [0,1] |
| Quantiles.PercentileForgetsOrder | internal/agg/correlate.go:276-278 | it is the same for every permutation of the values |
| Quantiles.FewAbovePercentile | internal/agg/correlate.go:282-288 | at most n - 1 - floor(q(n-1)) values lie strictly above it |
| Sorting.SortForgetsOrder | internal/agg/correlate.go:276-278 | sorting gives one result for every order of the same values |
| Sorting.SortStable | internal/agg/correlate.go:148-150 | a stable sort leaves ties in their original order |
| Correlate.EventsIff | internal/agg/correlate.go:80-90 | there is a loss event if and only if some bucket lost at least one percent |
| Correlate.FewAboveThreshold | internal/agg/correlate.go:80-84 | at most n - 1 - floor(0.95(n-1)) buckets lie strictly above the threshold |
| Correlate.SpikeMeaning | internal/agg/correlate.go:103-119 | the model's root-free tests are the source's comparisons with mean + 3 standard deviations |
| Correlate.EventHitsMeaning | internal/agg/correlate.go:112-125 | with one row per TTL the tallies are the number of loss events in which the signal was present; what the signals are is in `Convictions.VerdictIff` |
| Correlate.ConfidenceMeaning | internal/agg/correlate.go:133-140 | confidence is above one half exactly for the guilty, and never above one |
| Correlate.CorrelatedMeaning | internal/agg/correlate.go:72-152 | the result is the responsive hops whose stronger signal was present in more than half of the loss events, each with its confidence in (0.5,1], sorted descending; in the source's own comparisons in `Convictions.VerdictIff` |
| Correlate.TiesInTableOrder | internal/agg/correlate.go:148-150 | equally confident verdicts stay in TTL order |
| Correlate.RateLimitedICMP | internal/agg/correlate.go:231-246 | the early-exit loop decides: at least 5 percent loss, and some responsive hop further down more than 5 points lower |
| Correlate.LossEvents | internal/agg/correlate.go:76-87 | the loop collects exactly the events |
| Correlate.ScoreHops | internal/agg/correlate.go:98-107 | one score per responsive TTL, the last row winning |
| Correlate.BookRow | internal/agg/correlate.go:114-123 | one bucket row raises the tallies of its own TTL only, each as its signal asks |
| Correlate.CountHits | internal/agg/correlate.go:112-125 | the nested loops compute the tallies for every hop at once |
| Correlate.CorrelateImpl | internal/agg/correlate.go:72-152 | the whole map-and-loop algorithm computes the specification, early returns included |
| Convictions.VerdictIff | internal/agg/correlate.go:72-152 | with one row per TTL a hop is listed if and only if it answers and, among the seconds that lost at least one percent and no less than the 95th percentile, its round trip exceeded mean + 3 deviations (that sum being positive) in more than half or, unless it ends at 5 percent or more with a later answering hop over 5 points lower, its loss exceeded 1 percent in more than half; confidence is the larger share, a contradicted hop's loss not counted |
| Convictions.SteadyLoserIsListed | internal/agg/correlate.go:121-123 | a hop that answers, is not contradicted downstream and lost more than 1 percent in more than half of the events is listed |
| Convictions.ThrottlerIsSpared | internal/agg/correlate.go:121-123 | a hop at 5 percent or more that is contradicted downstream is never listed for its loss, only for its round trips |
| Verdicts.MergeSuspects | internal/agg/correlate.go:162-206 | whatever order the map is ranged in, the list holds exactly the merged entries, one per TTL, by descending confidence, and among equals joint verdicts before TCP's before ICMP's |
| Verdicts.MergeSources | internal/agg/correlate.go:166-192 | which source a merged entry carries, for every pair of input lists |
| Verdicts.MergedConfidence | internal/agg/correlate.go:162-192 | a TTL keeps the confidence of its one verdict, and takes the greater where both sources have one |
| Verdicts.MergeRoundTrip | internal/agg/correlate.go:162-206 | splitting the merged list by source gives back the TCP TTLs always, and the ICMP TTLs if and only if no TTL flagged twice by TCP is absent from ICMP |
| Verdicts.SuspectTTLsForSource | cmd/dropline/trace.go:1273-1281 | exactly the TTLs of entries with that source or the joint one |
| Verdicts.RepeatedVerdictLeaks | internal/agg/correlate.go:173-192 | a concrete TCP list that flags one TTL twice, which comes back as an ICMP verdict |
| EndOfTest.MergedKeepsSources | cmd/dropline/trace.go:757-759 | on real correlator output the merge neither drops a verdict nor leaks one into the other table |
| EndOfTest.MarkedExactly | internal/agg/aggregator.go:402-426 | marking raises the flag of exactly the rows with a listed TTL and touches nothing else |
| EndOfTest.ReportMarksTheVerdicts | cmd/dropline/trace.go:757-765 | building the report flags exactly the TTLs of each correlator's verdicts, in the live table of that kind and in that kind of table of every bucket |
| EndOfTest.ReportMarksTheGuilty | cmd/dropline/trace.go:750-765 | and with one row per TTL these are exactly the TTLs of the hops that correlator convicts |
| Convictions.ReportFlagsTheBlamed | cmd/dropline/trace.go:750-765 | in terms of what the aggregator holds: building the report newly flags a row of the live ICMP table if and only if bucket losses and bucket ICMP tables blame the hop as in `Convictions.VerdictIff` |
| Convictions.ReportFlagsTheBlamedTcp | cmd/dropline/trace.go:750-765 | the same for the TCP table when the TCP prober was on |
| EndOfTest.CorrelatedIgnoresFlags | internal/agg/correlate.go:46-49 | the correlator never reads its own verdicts |
| EndOfTest.ReportIsIdempotent | cmd/dropline/trace.go:746-766 | building the report a second time changes nothing |
| Framing.HeaderRoundTrip | internal/control/framing.go:24-25 | the four length bytes are a bijection with 32-bit lengths |
| Framing.HeaderIsBigEndian | internal/control/framing.go:24-25 | the first length byte weighs 2^24, the last 1 |
| Framing.ReadIff | internal/control/framing.go:41-58 | a payload is read back if and only if the bytes begin with its frame: round trip in both directions |
| Framing.ReadCases | internal/control/framing.go:41-58 | exactly when a read ends in a short header, an oversized length, a short payload or a payload, and how many bytes it has then consumed |
| Framing.WriteFrame | internal/control/framing.go:20-36 | whole frame, nothing for an oversized payload, or a proper prefix after a failed write |
| Framing.Reader.ReadFull | internal/control/framing.go:43-45 | exactly n bytes, or everything and an error |
| Framing.Reader.ReadFrame | internal/control/framing.go:41-58 | returns and consumes what the specification says in all four cases |
| Framing.Reader.ReadMany | internal/control/client.go:64-65 | repeated reads return the specification's frames |
| Framing.FramesOfBytes | internal/control/framing.go:20-58 | whole frames back to back, followed by anything, read back as those frames |
| Framing.WireIsWholeFrames | internal/control/client.go:56-62 | at every moment of every interleaving of any number of senders the wire is whole frames plus at most one header, a reader gets exactly the completed payloads, and each sender's own are in its order with nothing lost |
| Framing.FinishedRunDelivers | internal/control/client.go:56-62 | when all senders are done the wire is a merge of everything they could send |
| Framing.NeverStuck | internal/control/client.go:56-62 | while a payload is outstanding some goroutine can take a step |
| Framing.RunKeeps | internal/control/client.go:56-62 | the mutex protocol's invariant over every run |
| Sender.WaitUntil | internal/stream/sender.go:165-188 | returns once the clock has reached the target and not a reading later, in both modes |
| Sender.IntervalMeaning | internal/stream/sender.go:110-117 | the interval is the time the packet's bits take at the rate, rounded down to nanoseconds but at least one |
| Sender.Run | internal/stream/sender.go:110-160 | packets are stamped 0, 1, 2, ...; none before t0 + n * interval, none held back once due, none begun after the duration; a finished run saw the duration pass, a failed write came at its packet, and a cancelled one ran out of clock before its next packet was held back once due |
| Sender.NeverAheadOfSchedule | internal/stream/sender.go:133-158 | at every moment at most elapsed / interval + 1 packets have been sent, whatever the stalls |
| Sender.DurationBoundsPackets | internal/stream/sender.go:129-158 | a run with a duration sends at most ceil(duration / interval) + 1 packets |
| Reports.FinalAddsUpIff | cmd/dropline/serve.go:773-776 | below the cap Sent = Recv + Loss if and only if MaxSeq is not 2^63 - 1 |
| Reports.FinalWraps | cmd/dropline/serve.go:775-775 | the accepted packet for which the 64-bit addition wraps |
| Reports.FinalMissesOnlyTheTail | cmd/dropline/serve.go:760-776 | against the sender's own log: the reported Sent counts exactly up to the last arrival |
| Reports.ReverseStreamReport | cmd/dropline/trace.go:1189-1223 | absent exactly when both inputs say so; Lost is the larger of observed gaps and Sent - Recv, never negative; the denominator prefers Sent |
| Reports.EffectiveLossMeaning | cmd/dropline/trace.go:1205-1212 | Lost is the least count that is not negative and not below the observed gaps or the server's difference |
| Reports.LossPctMeaning | cmd/dropline/trace.go:1213-1219 | the percentage is the lost share of the server's count or, without one, of what is accounted for |
| Reports.ReverseLossCounts | cmd/dropline/trace.go:1205-1215 | Lost = Sent - Recv = the number of stamped packets that never arrived, and is at least the observed gaps |
| Reports.ReverseReportExact | cmd/dropline/trace.go:1189-1223 | sender, network, accumulator and report together: Lost counts every packet that never arrived, the tail included, and LossPct is in [0,100] |

## Left out

- TcpLaps.SweepSafeIff: leaves out sweeps that do not fit and start within two turns of the wrap of the cursor, for ranges that do not divide 2^32. There `TcpLaps.RoomySweepIsSafe` and `TcpLaps.LapIsUnsafe` still decide each way, but between them lie sweeps whose only laps are longer than one call of the allocator.
- TcpLaps.BooksSafeIff: the same sweeps.
- TcpTiming.TimelyRunIsSafe: asks at each start for the condition on the wrap of the cursor that `TcpLaps.SweepSafeIff` proves exact. Whether sweeps are timely is up to the ticker and the dialers; a dial that outlasts the window makes the next sweep late.
- PortRange.RangeCoversWindow: takes as given that live probes come from sweeps whose starts lie strictly inside the loss window; `TcpTiming.TimelySweepFits` derives the fit from the clock instead.
- IcmpSweep.SeqNeverReusedWhileLive: assumes a ticker that buffers one tick, so that no two whole sweep periods fit inside one interval, at least 100 ms between ticks, and at most 255 hops, as the command line enforces (`cmd/dropline/trace.go:39-51`).
- Receiver.Receiver.Finish: the session end on which no further packet is dispatched; packets dispatched between drain and final snapshot stay in the channel, and `Receiver.Receiver.Snapshot` covers that case with the unread packets in its upper bound.
- Sender.Run: the product of sequence number and interval is unbounded, where the source multiplies 64-bit durations; a write error, cancellation and every clock reading are inputs.
- Reports.ReverseReportExact: the sender's count and the packets it stamped are taken together; a packet whose write failed but still left the host is not modelled.
- Framing.WireIsWholeFrames: no write fails; a failed write is in `Framing.WriteFrame`, after which the session ends.
- Verdicts.MergeSuspects: evidence strings are not modelled, so entries that differ only there are one.
- Aggregator.Aggregator.SnapshotOf: reverse tables, the reverse stream view, TCP_INFO samples and status strings are copied field by field and are not part of the snapshot modelled here.
- The direct-socket receiver mode (`internal/stream/receiver.go:257-306`): it drops locally instead of in the hub and has no invariant of its own.
- The compare-and-swap loop of the port reservation is a protocol in `PortRange.dfy`; there is no object for it.
- The two probers' copies of the same map and counter updates are one class, `ProbeBook.Book`.
- The accumulator's last-arrival stamp, which is written and never read.
- Sockets, raw ICMP, dialing, deadlines and kernel counters: their outcomes are inputs.
- ICMP and header parsing, JSON, flag parsing, session admission, back-off timers, the Windows probers, and rendering.
- The received bit rate in the final report, which is one floating-point division.
- IEEE rounding, infinities and NaN.
