# Verified models of the DPDK samples' state machines

Dafny models, with proofs, of the parts of this repository that keep state of their
own: the NAPT engine and the NAT pools, three concurrent protocols, the feature arc,
and the byte-level and counting cores. `dafny verify dfyconfig.toml` checks all of it.

DPDK itself is modelled by what it promises: a hash is a finite map, a ring is an atomic
FIFO of 1023 slots, a timer is a deadline that fires when timers are managed,
`rte_malloc` returns an address not in use. Clock readings, what the port delivers or
accepts and the interleaving of threads are inputs, and every result holds for all of
them. So are out-of-memory and full hash tables in the version 6 engine, whose results
hold whichever insert or allocation fails unless they say otherwise.

Elsewhere allocation and insertion are taken to succeed. The version 4 and 5 pools ignore
the answer of their hash insert; at most `range` addresses are in a table created for
2 * `range` (`PoolCore.IndexCountsUsedSlots`). RCU and the two ring protocols use the
result of `rte_malloc` unchecked, so a failed allocation ends the program there.

| file | models |
|---|---|
| `Napt.dfy` | version 6 engine: tables, port cursor, timers, rewrites |
| `NaptRuns.dfy` | its runs: no dangling pointers, filtering, lifetime |
| `NaptWindow.dfy` | table bijection with its exact condition, the port window, round trips |
| `NaptPromises.dfy` | isolation, delivery of replies and steady ports, each with its exact condition |
| `NaptRewrite.dfy` | the packet path and its rewrites on the bytes of a frame, checksums included |
| `NaptReuse.dfy` | what a reused port breaks |
| `PoolCore.dfy`, `PoolV4.dfy`, `PoolV5.dfy`, `PoolV5Runs.dfy` | version 4 and 5 NAT pools |
| `PoolV5Stability.dfy` | when the two timers leave a source its address, exactly |
| `Rcu.dfy`, `SharedRing.dfy`, `ThreadPipeline.dfy` | concurrent protocols, as step systems |
| `FeatureArc.dfy` | link table rebuilt in place |
| `Checksum.dfy`, `Vxlan.dfy`, `Classifier.dfy` | packet bytes |
| `LoadBalancer.dfy`, `Burst.dfy` | round robin, buffer ownership |
| `Wire.dfy`, `Finite.dfy` | machine words, counting |

The sequential code is written as classes and methods that update fields and arrays in
place. Each method is proved equal to a function of the old state, and the results below
are lemmas about those functions over all inputs and all runs.

## Findings

- Version 6 does not notice a port still in use. The 64512th flow to one server breaks
  isolation (`PortReuseBreaksIsolation`), and an expiry can take the reply key of another
  entry with it (`ExpiryOfReusedPortLosesReplies`). Both promises, that no two flows
  share a translated 5-tuple and that replies reach their flow, are kept over a run
  exactly when every step of it passes a test on the tables it finds
  (`PromiseStepIffSafe`, `PromiseIffSafe`): for isolation, that no live entry of another
  flow holds the new reply key; for delivery, that the new key gets into the table
  unshared and that no entry expires that shares it with one that stays. When every
  creation has room, both come down to finding the reply key unused
  (`RoomyPromiseIffClean`). That live entries come from the last 64511 allocations, at
  every moment of the run, is enough (`WindowGivesBijection`, `WindowKeepsPromises`).
- Port reuse does not move a flow's own port: flows keep their public ports over a run
  exactly when every creation found room in the forward table (`SteadyIffForwardRoom`).
  A failed insert does move one (`FailedInsertMovesPort`). No table ever holds a dangling
  pointer (`NoDanglingPointer`).
- Version 6 and the VXLAN encapsulation compute checksums without clearing the field
  first. What version 6 sends verifies exactly when the field of the received packet
  held 0x0000 or 0xFFFF (`SentVerifiesIffReceivedZero`); for VXLAN it is what the
  headroom held (`OuterChecksumIffHeadroomZero`).
- Every packet that the version 4 and 5 pools send out carries the address of its own
  source's slot, and while their mappings stand two sources never share one
  (`PacketLeavesTranslated`, `SourcesLeaveApart`).
- A source in steady use keeps its address in every run of version 4
  (`PoolV4.SteadyUseKeepsAddress`), but not of version 5. There the table timer is armed
  when a burst begins, and `nat_pool_reset` asks nothing, so mappings in use can be
  cleared (`SlowBurstLosesAddress`). They survive a run exactly when the table was never
  emptied within 5 seconds of a packet
  (`InPlaceIffSpares`, `InPlaceThroughoutIffSpares`). For the timer that is exactly when
  all it clears is idle (`TableTimerClearsOnlyIdleIff`). The condition cannot be relaxed:
  break it, and in a pool of two addresses or more some packets will change a source's
  address (`SparingIsExact`). Bursts shorter than 5 seconds meet it (`BriskRunsSpare`).
- The classifier's README lists no DNS over TCP; the code treats TCP port 53 as control
  traffic, and so does the model.

## Model

| member | source | states |
|---|---|---|
| Napt.Engine.AllocatePort | nat_project/version6/static_nat.c:40-47 | steps the cursor through 1024..65534 and back to 1024 |
| Napt.Engine.CreateEntry | nat_project/version6/static_nat.c:72-130 | out of memory changes nothing; otherwise the whole new engine state, entry, both keys, armed timer, inserts that may fail |
| Napt.Engine.Refresh | nat_project/version6/static_nat.c:133-140 | only that entry's deadline moves, to now plus 30 s |
| Napt.Engine.EntryExpire | nat_project/version6/static_nat.c:50-69 | both keys deleted and the entry freed |
| Napt.Engine.TimerManage | nat_project/version6/static_nat.c:292 | whatever the order of the callbacks, exactly the due entries and their keys are gone |
| Napt.ExpireThenManage | nat_project/version6/static_nat.c:50-69 | which due callback runs first does not change where a batch of them ends |
| NaptRuns.NoDanglingPointer | nat_project/version6/static_nat.c:50-250 | in every reachable state every table pointer is a live entry, under its own key, with its timer armed |
| NaptRuns.OnlyRequestedTrafficEnters | nat_project/version6/static_nat.c:213-250 | an inbound packet is forwarded only to a private endpoint that earlier sent to that same remote address, port and protocol |
| NaptRuns.InboundNeedsRecentTraffic | nat_project/version6/static_nat.c:50-250 | and only through a translation that some packet went through less than 30 s before the last timer manage |
| NaptRuns.DropIff | nat_project/version6/static_nat.c:143-250 | exactly which packets are dropped, and that a dropped packet changes nothing |
| NaptRuns.LiveEntriesAfterManage | nat_project/version6/static_nat.c:50-140 | after a timer manage the live translations, by flow and reply 5-tuple, are exactly those with a packet, either way, less than 30 s before |
| NaptWindow.WindowOfPortsIsDistinct | nat_project/version6/static_nat.c:40-47 | any 64511 consecutive ports are distinct and in 1024..65534, the next one repeats the first |
| NaptWindow.BijectionIffClean | nat_project/version6/static_nat.c:72-130 | tables and live entries in bijection throughout a run if and only if every creation found its reply key unused and room |
| NaptWindow.WindowGivesBijection | nat_project/version6/static_nat.c:72-250 | if live entries always come from the last 64511 allocations the tables are in bijection and never exceed 64511 entries |
| NaptPromises.PromiseStepIffSafe | nat_project/version6/static_nat.c:50-250 | isolation, delivery of replies, steady ports: a step keeps each if and only if it passes a test on the tables before it, in any reachable state, with inserts free to fail |
| NaptPromises.PromiseIffSafe | nat_project/version6/static_nat.c:50-250 | so each promise holds all along a run if and only if every step passed the test |
| NaptPromises.RoomyPromiseIffClean | nat_project/version6/static_nat.c:72-250 | if every creation has room, replies reach all recent flows, and recent flows are isolated, throughout a run if and only if every creation found its reply key unused |
| NaptPromises.WindowKeepsPromises | nat_project/version6/static_nat.c:40-250 | isolation and delivery hold throughout a run whose live entries always come from the last 64511 allocations; steady ports need forward room only |
| NaptPromises.SteadyIffForwardRoom | nat_project/version6/static_nat.c:72-250 | flows keep their public port throughout a run if and only if every creation found room in the forward table |
| NaptPromises.FailedInsertMovesPort | nat_project/version6/static_nat.c:116 | a reachable state after a failed insert in which the flow's next packet leaves from another port |
| NaptPromises.InboundIffRecentTraffic | nat_project/version6/static_nat.c:224-234 | where replies are delivered, an inbound packet is forwarded if and only if some packet went through its translation in the last 30 s |
| NaptPromises.RepliesGoToNewestFlow | nat_project/version6/static_nat.c:115-117 | right after a creation the mirrored reply reaches the new flow, whoever held the reply key, unless the key was new and had no room |
| NaptPromises.HoldsIffTabled | nat_project/version6/static_nat.c:143-250 | in every reachable state each promise about packets is equivalent to a property of tables and live entries |
| NaptWindow.RoundTripIff | nat_project/version6/static_nat.c:213-250 | the mirrored reply to a flow used in the last 30 s goes to its private address and port, no other address or port changed, if and only if the reply table leads back to the flow, as it does under the bijection |
| NaptWindow.MappingIsStable | nat_project/version6/static_nat.c:213-250 | while live entries own their forward keys, the next packet of such a flow leaves with the same public address and port |
| NaptWindow.FlowsAreIsolatedIff | nat_project/version6/static_nat.c:72-250 | recent packets, either way, share a translated 5-tuple just when they are of one flow, if and only if live entries share reply keys just when they share forward keys |
| NaptRewrite.StoreOut | nat_project/version6/static_nat.c:171-189 | the frame after rewrite_out: address, port, transport and header checksum stored in that order over their old values |
| NaptRewrite.StoreIn | nat_project/version6/static_nat.c:192-210 | the same for rewrite_in |
| NaptRewrite.RewriteTouches | nat_project/version6/static_nat.c:171-210 | every byte outside the chosen address, the chosen port and the two checksums is kept |
| NaptRewrite.RewritesAreNapts | nat_project/version6/static_nat.c:171-210 | on the 5-tuple and the other bytes the stores are the engine's rewrites |
| NaptRewrite.ProcessPacket | nat_project/version6/static_nat.c:143-250 | engine state, verdict and every byte of the frame, for every packet and every failure, frames that parse rejects included; never follows a freed pointer |
| NaptRewrite.EngineOnFrames | nat_project/version6/static_nat.c:213-250 | the engine on packets, which the results over runs are about, and the code on frames agree on what is forwarded, how, and what is dropped |
| NaptRewrite.SentVerifiesIffReceivedZero | nat_project/version6/static_nat.c:171-210 | the header and transport checksums sent verify if and only if the received fields held zero, in either form |
| NaptReuse.PortReuseBreaksIsolation | nat_project/version6/static_nat.c:40-130 | after 64512 flows two recently used ones share a translated 5-tuple, in a reachable state |
| NaptReuse.ExpiryOfReusedPortLosesReplies | nat_project/version6/static_nat.c:50-69 | a reachable state whose one live, newest entry has lost its reply mapping |
| PoolV4.NatPool.FindFreeSlot | nat_project/version4/static_nat.c:63-96 | one pass equals releasing every expired slot and then taking the lowest free one, in slots, index and result, for any pool |
| PoolV4.NatPool.ApplyOne | nat_project/version4/static_nat.c:101-147 | pool and buffer after one packet: reuse, assign, or drop with a NULL buffer; what that means for the packet is PoolV4.PacketLeavesTranslated |
| PoolV4.PacketLeavesTranslated | nat_project/version4/static_nat.c:101-147 | over every run an IPv4 packet that is not dropped leaves from the address of the one slot in use for its source, any other packet as it came |
| PoolV4.SourcesLeaveApart | nat_project/version4/static_nat.c:101-147 | packets sent within the idle time, or whose mapping is in place, left from one address if and only if they came from one source |
| PoolV4.DropIffEverySlotBusy | nat_project/version4/static_nat.c:113-138 | over every run a drop happens exactly when each slot was used by its own, distinct, private address within the idle time |
| PoolV4.SteadyUseKeepsAddress | nat_project/version4/static_nat.c:63-147 | over every run a source whose packets are less than the idle time apart keeps one public address |
| PoolV5.NatPool.constructor | nat_project/version5/static_nat.c:32-102 | the initial slots, public addresses, maps and timers |
| PoolV5.NatPool.ExpiryTimerCb | nat_project/version5/static_nat.c:107-128 | exactly the idle slots are released and their addresses forgotten |
| PoolV5.NatPool.TableTimerCb | nat_project/version5/static_nat.c:131-151 | everything is cleared, public addresses stay |
| PoolV5.NatPool.Reset | nat_project/version5/static_nat.c:164-176 | clears the pool and stops the table timer |
| PoolV5.ClearAbsorbsReleaseInTimers | nat_project/version5/static_nat.c:107-151 | with both timers due, either order of the two callbacks ends in the same state, pool, timers and flag |
| PoolV5.NatPool.FindFreeSlot | nat_project/version5/static_nat.c:228-235 | the lowest free slot, or -1 when there is none |
| PoolV5.NatPool.ApplyOne | nat_project/version5/static_nat.c:262-317 | pool and buffer after one packet: inbound, reuse, assign, or drop; what that means for the packet is PoolV5Runs.PacketLeavesTranslated |
| PoolV5.NatPool.MainTurn | nat_project/version5/main.c:51-83 | timers first, then arm, then the burst packet by packet, then what was not dropped is transmitted in order |
| PoolV5.BurstOutputAt | nat_project/version5/static_nat.c:262-318 | buffer i of a burst ends as its packet does after those before it |
| PoolV5.SomesLaws | nat_project/version5/main.c:78-82 | transmission skips dropped buffers and nothing else, in order |
| PoolV5Runs.TurnIsRun | nat_project/version5/main.c:51-74 | a turn of the main loop is a run of the events the results below are about |
| PoolV5Runs.PacketLeavesTranslated | nat_project/version5/static_nat.c:262-317 | in every reachable state an outbound packet that is not dropped leaves from the address of the one slot in use for its source; packets for the static map get its address; others leave as they came |
| PoolV5Runs.PacketsInARowLeaveApart | nat_project/version5/static_nat.c:262-317 | two outbound packets in a row leave from one address if and only if they come from one source |
| PoolV5Runs.SourcesLeaveApart | nat_project/version5/static_nat.c:262-317 | packets whose mappings are in place left from one address if and only if they came from one source |
| PoolV5Runs.PoolAgreesInEveryReachableState | nat_project/version5/static_nat.c:49-318 | in any run of timers, bursts and resets, index and slots describe one mapping, one to one, fixed public addresses, index size equal to used slots |
| PoolCore.PublicsAreDistinct | nat_project/version5/static_nat.c:50-51 | public addresses of different slots differ, modulo 2^32 |
| PoolCore.RewriteSetsAddress | nat_project/version5/static_nat.c:238-257 | on the bytes of a frame the rewrite with its checksums is the change of one address that the pools make |
| PoolV5Runs.DropIffUnmappedAndFull | nat_project/version5/static_nat.c:262-317 | a packet is dropped exactly when it is IPv4, unmapped both ways and every slot is in use |
| PoolV5Runs.ManageASecondLaterReleasesIdle | nat_project/version5/static_nat.c:81-128 | a timer manage one second after the last leaves no idle slot in use |
| PoolV5Runs.ManageEmptiesAfterTenSeconds | nat_project/version5/static_nat.c:107-161 | a timer manage empties the table exactly when 10 s have passed since the last burst began, and else releases nothing that is not idle for 5 s |
| PoolV5Stability.InPlaceIffSpares | nat_project/version5/static_nat.c:107-176 | a step keeps every mapping used in the last 5 s if and only if it does not empty the table within 5 s of a packet |
| PoolV5Stability.InPlaceThroughoutIffSpares | nat_project/version5/static_nat.c:107-309 | so over whole runs, and then packets of one source under 5 s apart leave alike |
| PoolV5Stability.TableTimerClearsOnlyIdleIff | nat_project/version5/static_nat.c:131-161 | in every reachable state the firing table timer clears only slots idle for 5 s if and only if no packet was sent in the last 5 s |
| PoolV5Stability.SparingIsExact | nat_project/version5/static_nat.c:107-309 | after a step sources keep their address whatever packets follow at once if and only if the step spared the mappings in use or the pool has one address only |
| PoolV5Stability.SteadyUseKeepsAddress | nat_project/version5/static_nat.c:107-309 | in such runs consecutive packets under 5 s apart give one public address for the whole run |
| PoolV5Stability.RecentPacketsLeaveApart | nat_project/version5/static_nat.c:107-317 | in such runs packets of the last 5 s left from one address if and only if they came from one source |
| PoolV5Stability.BriskRunsSpare | nat_project/version5/main.c:51-74 | bursts shorter than 5 s meet the condition |
| PoolV5Stability.SlowBurstLosesAddress | nat_project/version5/main.c:51-74 | a concrete run with a slow burst in which a steadily used address changes |
| Rcu.ReadersNeverTouchFreed | rcu/sample/main.c:20-70 | no reader dereferences a freed version, for any number of readers and updates |
| Rcu.AtMostTwoVersions | rcu/sample/main.c:47-70 | at most two versions are allocated at once |
| Rcu.ReadersSeeNonDecreasingValues | rcu/sample/main.c:28-39 | the values a reader sees never go back |
| Rcu.ReadsWhatItLoaded | rcu/sample/main.c:29-34 | a reader prints the version published when it loaded the pointer, whatever the others do in between |
| Rcu.ReadsOncePerLoop | rcu/sample/main.c:28-39 | until it stops a reader prints exactly once per loop |
| Rcu.NothingFreedIsSeen | rcu/sample/main.c:29-66 | once a version is freed every value any reader prints later, in any continuation, is newer |
| Rcu.EveryVersionFreedOnce | rcu/sample/main.c:82-96 | at the end each version was freed exactly once |
| Rcu.GracePeriodProgress | rcu/sample/main.c:61-65 | lagging readers' moves bring the end of the grace period nearer, nothing puts it off |
| Rcu.EveryRunCanFinish | rcu/sample/main.c:28-98 | no state is a deadlock: every run can be continued until the program has ended |
| SharedRing.SingleRingRefinesTwoRings | inter_process_comm/single_ring_full_duplex/primary.c:25-66 | every single-ring run, split by destination, is a two-ring run with the put-backs left out |
| SharedRing.AtMostOneMessage | inter_process_comm/single_ring_full_duplex/secondary.c:21-56 | at most one message exists, so no unchecked enqueue can fail |
| SharedRing.RepliesInOrder | inter_process_comm/single_ring_full_duplex/primary.c:38-57 | the primary receives 0, 10, 20, ... in order, all N by its end |
| SharedRing.EveryMessageFreedOnce | inter_process_comm/single_ring_full_duplex/secondary.c:33-56 | when the secondary exits all 2N+1 messages have been freed once |
| SharedRing.WorkGetsDone | inter_process_comm/single_ring_full_duplex/secondary.c:21-56 | each step that is not a put-back or an empty poll is progress, and the exchange never gets stuck |
| SharedRing.TwoRingRepliesInOrder | inter_process_comm/ring_full_duplex/primary.c:30-52 | every two-ring run, matched or not, receives the same replies, holds one message at most and frees each once |
| ThreadPipeline.NothingLost | thread_parsing/threaded_project/rx.c:12-31 | at most 41 packets, so no ring refuses one and the parser frees none |
| ThreadPipeline.StopsAtLimit | thread_parsing/threaded_project/rx.c:12-30 | all go on until rx stops, which takes 10 packets received; until then a poll takes up to 32 of what the port has |
| ThreadPipeline.EverythingIsHandedOn | thread_parsing/threaded_project/parser.c:165-190 | until the stop, parser and tx alone can hand on, in order, all that rx put into its ring |
| ThreadPipeline.QuitStopsAll | thread_parsing/threaded_project/tx.c:12-30 | after the stop three moves each end the other threads |
| ThreadPipeline.CountersMatchPackets | thread_parsing/threaded_project/parser.c:165-190 | counter gaps equal the packets in rings and hands |
| ThreadPipeline.HandedIsPrefix | thread_parsing/threaded_project/tx.c:12-30 | what tx handed on is a prefix of what was received, the rest is still under way |
| ThreadPipeline.StrandedInRings | thread_parsing/threaded_project/tx.c:12-30 | after all threads stop, what is missing lies in the two rings |
| FeatureArc.Graph.SetNextLink | feature_arc/sample/main.c:33-41 | the first node of that name is linked, or nothing changes |
| FeatureArc.Graph.FeatureSet | feature_arc/sample/main.c:57-69 | every feature of that name gets the flag, which FeatureArc.EnabledIffTurnedOn gives its meaning |
| FeatureArc.EnabledIffTurnedOn | feature_arc/sample/main.c:57-69 | after any operations a feature is enabled if and only if the last one that enables or disables it enables it, or none does and it was enabled |
| FeatureArc.Graph.ArcRebuild | feature_arc/sample/main.c:71-83 | links start, enabled features and end in turn |
| FeatureArc.Graph.DumpPipeline | feature_arc/sample/main.c:86-106 | terminates and prints the walk wherever a finite one exists |
| FeatureArc.WalkIsUnique | feature_arc/sample/main.c:86-106 | a walk is determined by where it starts |
| FeatureArc.RebuildGivesWalkIff | feature_arc/sample/main.c:71-106 | after a rebuild the walk is start, enabled features in order, end, whatever stale links remain, if and only if all of them but the end have nodes |
| FeatureArc.RebuildGivesWalk | feature_arc/sample/main.c:71-106 | nodes missing or not, after a rebuild the walk is the chain up to its first name without a node |
| FeatureArc.WalkShowsLastRebuild | feature_arc/sample/main.c:57-106 | after any history with a rebuild the walk is finite and shows the features that the operations before the last one turned on, in order, up to the first without a node |
| FeatureArc.RebuildIsIdempotent | feature_arc/sample/main.c:71-83 | rebuilding twice changes nothing more |
| Checksum.WordSumLaws | nat_project/version5/static_nat.c:245-256 | the sum adds big-endian 16-bit words, an odd last byte counting as the high byte of one |
| Checksum.L4SumIsPseudoPacketSum | nat_project/version5/static_nat.c:248-256 | what the transport checksum covers is the pseudo header followed by the segment |
| Checksum.RewriteAndRecalc | nat_project/version5/static_nat.c:238-257 | the buffer after the rewrite, as a function of the buffer before |
| Checksum.OnlyAddressAndChecksumsChange | nat_project/version5/static_nat.c:238-257 | only the chosen address and the checksum fields change |
| Checksum.HeaderVerifies | nat_project/version5/static_nat.c:245-246 | the header checksum verifies as a one's complement sum |
| Checksum.TransportVerifies | nat_project/version5/static_nat.c:248-256 | the TCP or UDP checksum verifies over pseudo header and segment, and a UDP one is never zero |
| Checksum.ImpossibleLengthGivesZero | nat_project/version5/static_nat.c:248-256 | a total length below the header length gives a transport checksum of 0 |
| Checksum.HeaderCksumVerifiesIff | nat_project/version6/static_nat.c:188 | storing the checksum of a header over a field not cleared first gives one that verifies exactly when the field held zero in either form |
| Checksum.L4CksumVerifiesIff | nat_project/version6/static_nat.c:181-185 | the same for the transport checksum |
| Vxlan.Mbuf.Encapsulate | vxlan/main.c:38-90 | the buffer with 50 bytes of outer headers in front of the untouched frame |
| Vxlan.Mbuf.Decapsulate | vxlan/main.c:93-123 | strips them off what looks like VXLAN and is long enough |
| Vxlan.ForwardTwiceRestores | vxlan/main.c:175-186 | forwarding a non-VXLAN frame twice restores it byte for byte |
| Vxlan.ForwardStripsIff | vxlan/main.c:93-123 | a frame is stripped exactly when its bytes say IPv4, UDP and port 4789, and then of 50 bytes if it is that long |
| Vxlan.EncapWritesHeaders | vxlan/main.c:57-86 | all 50 bytes but the IPv4 checksum, and lengths equal to the byte counts exactly up to 65535 - 36 |
| Vxlan.OuterChecksumIffHeadroomZero | vxlan/main.c:76 | the outer header verifies exactly when the headroom held zero there |
| Classifier.TagTransparent | control_data_segregation/main.c:67-123 | a tag on an untagged frame keeps its class; a second tag makes it data |
| Classifier.ClassifyWellFormed | control_data_segregation/main.c:43-123 | frames built from their parts are control exactly for ICMP, OSPF and the listed ports |
| Classifier.OnlyIpv4IsControl | control_data_segregation/main.c:67-123 | control frames are IPv4, at most one tag deep, and hold an IPv4 header |
| Classifier.PaddingKeepsControl | control_data_segregation/main.c:67-123 | trailing bytes never turn control into data |
| LoadBalancer.StoreBackend | Load_Balancer/load_balancer.c:66-84 | the frame after the stores: destination, port, transport checksum, header checksum, in that order |
| LoadBalancer.RedirectSetsDestination | Load_Balancer/load_balancer.c:66-84 | on what the balancer sees this is the new destination and nothing else |
| LoadBalancer.RedirectedVerifies | Load_Balancer/load_balancer.c:68-84 | both checksums of what is sent verify |
| LoadBalancer.Balancer.RewriteL4 | Load_Balancer/load_balancer.c:52-88 | the backend chosen, address and port rewritten, cursor and hits kept equal to the shares |
| LoadBalancer.Balancer.Burst | Load_Balancer/load_balancer.c:100-128 | each frame of a burst gets its turn's backend, what was not transmitted is freed and the totals balance |
| LoadBalancer.ShareStep | Load_Balancer/load_balancer.c:62-64 | one more turn raises the share of the backend under the cursor only |
| LoadBalancer.BackendsTakeTurns | Load_Balancer/load_balancer.c:52-88 | supported frames in a row go to the IP addresses and ports of backends in turn |
| LoadBalancer.SharesAreFair | Load_Balancer/load_balancer.c:52-88 | shares add up to the turns and differ by at most one |
| Burst.Compact | nat_project/version6/main.c:79-88 | in-place compaction keeps the accepted buffers in order and frees the others |
| Burst.ForwardBurst | nat_project/version6/main.c:76-98 | each received buffer is sent or freed exactly once, what is sent is a prefix of the accepted |
| Burst.FirewallNode | dpdk-graph-fw/nodes/firewall_node.c:12-48 | keeps the long packets in order, frees exactly the short ones |
| Burst.SelectAt | dpdk-graph-fw/nodes/firewall_node.c:28-39 | selection is stable and complete |
| Burst.SelectPartitions | nat_project/version6/main.c:79-98 | kept and rejected together are all, each once |
| Burst.L2Node | graph/pipeline/pipeline.c:57-83 | the three-way split, never past 32 slots |
| Burst.EdgeByType | graph/pipeline/pipeline.c:66-76 | IPv4 leaves by the first edge, IPv6 by the second, everything else by the third |
| Burst.OnEdgeSelects | graph/pipeline/pipeline.c:66-76 | each part of the split is a stable selection |
| Burst.EdgesPartition | graph/pipeline/pipeline.c:66-76 | each frame leaves by exactly one edge |
| Burst.GraphWalk | graph/pipeline/pipeline.c:142-173 | over one walk every buffer is transmitted or freed exactly once, as many as the port takes, IPv4 first |

## Left out

- Failed hash inserts in the version 4 and 5 pools: not modelled, as said above; after one, a slot would be in use without its address in the index.
- Failed allocations in RCU and the ring protocols: not modelled; the sources dereference the answer unchecked.
- The version 6 entry that frees itself in its own timer callback: the timer library's view of that memory is not part of this model.
- Frames of version 6 shorter than the headers or the lengths they claim: the code reads them without a check, and the bytes beyond the buffer are not part of this model.
- NaptRewrite.SentVerifiesIffReceivedZero: speaks of IPv4 headers of 20 bytes, as `Checksum.HeaderVerifies` does; with options the code looks for ports and transport checksum in the wrong place.
- PoolV5.NatPool.ApplyOne: buffers hold the EtherType and the addresses; the bytes that rewrite_and_recalc stores are those of `Checksum.RewriteAndRecalc`, tied to it by `PoolCore.RewriteSetsAddress`.
- LoadBalancer.Balancer.RewriteL4: buffers hold the fields that are read or set; the bytes, checksums included, are those of `LoadBalancer.StoreBackend`.
- LoadBalancer.RedirectedVerifies: speaks of IPv4 headers of 20 bytes, for the same reason as above.
- Clock wrap-around: cycle counters and 64-bit totals are unbounded numbers here.
- Object identity: pool buffers hold frames as values, so two pointers to one mbuf in a burst are not modelled.
- Burst.ForwardBurst: the verdicts of nat_process_packet are an input here, not taken from the engine of `Napt.dfy`.
- Update in place of shared memory between threads: RCU, the rings and the pipeline are step systems over values, one atomic move at a time, sequentially consistent.
- SharedRing.WorkGetsDone: states progress of productive steps; that a process is eventually scheduled, and that put-backs stop, is not claimed.
- Integers of the messages: request values are unbounded, so 10 times a request does not overflow 32 bits.
- Frames of several segments in VXLAN: a frame lies in one buffer.
- Version 4 burst loop and checksums: the loop body is modelled, the recomputation is that of `Checksum.dfy`.
- The control/data main loop: the enqueue of classified packets into two rings, their drain loops and the counters are not modelled; `Classifier.dfy` stops at the class of a frame.
- Statistics and printing: nothing depends on them.
- EAL, ports, mempools, signals, configuration files and the internals of DPDK's hash, ring, timer, QSBR and mbuf: not in the repository or plumbing.
- ACL, LPM, eventdev, meter, CLI, telemetry, power, multi-process messaging and the remaining graph samples: not modelled, because they hand their state to DPDK calls or repeat a pattern that is modelled here.
