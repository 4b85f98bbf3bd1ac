# wg-mix-ebpf: a Dafny model of the dataplane and its lifecycle

wg-mix-ebpf disguises WireGuard packets inside the kernel: it swaps the type word, masks the
payload with an XOR key, and carries the datagram as ICMP echo or as a TCP-shaped packet
("FakeTCP"). A Go runtime builds, commits and tears down BPF generations around that dataplane,
and a daemon serves reload and stop requests through files. This project models the parts where
correctness is hard to see and proves what each of them promises. `dafny verify dfyconfig.toml`
checks all of it.

**Protocols as interleaved steps.** `GenerationGate` takes every atomic access to the gate word as
one step, with any number of packet visits and one userspace controller. `ControlBudget` does the
same for the compare-and-swap loop of the control-event limiter. `DaemonRequests` takes every file
operation of any number of clients and of the daemon as one step; every process may die between
two of them. The theorems speak about every run from the initial state.

**Objects updated under a lock or on one CPU.** `Session` is the session value with its packet-path
mutation and the delete claim. `AdmissionToken` is the per-CPU egress token slot with a history of what
happened to each nonce; a CPU may run its programs in any order with any nonces, and the theorems speak
about the history of every such run.

**Packets.** `PacketBuffer` is a packet reached through helpers that may all fail. On it stand the
segmented XOR chain (`XorChain`), the per-segment GSO transform (`GsoTransform`), the FakeTCP encoder
and XDP decoder (`FakeTcpWire`), the ICMP rewrite (`IcmpRewrite`) and the whole way of one packet there
and back (`PacketPath`). `Checksum` holds one's-complement arithmetic (section 2 of RFC 1071, section 3
of RFC 1624) as congruence modulo 65535; sums are taken in either byte order, so the results hold on
big- and little-endian hosts. `L3Parser` holds the two independent frame parsers.

**Fallible kernel and file operations.** `KernelState` lets every map, gate, attachment and close
operation fail and records the world after each. The record starts in the empty world, ends in the
present one, changes by one operation at a time and is never shortened; `PolicyTransaction`, `CoreStage`
and `RuntimeLifecycle` are built on it, so what is proved of the record is proved of every intermediate
step, deletions included. `GateProjection` ties its coarse gate to the words of `GenerationGate`.
`ClassicJournal` records the host after every file-system and netlink operation in the same way, through
crashes and reboots, so the record is the set of crash points.

Where the code and a comment disagree, the model follows the code: the comment at
bpf/wg_mix_faketcp.h:640-643 says that a fresh limiter cursor is first set to the current time, but the
function admits the first event at once and sets the cursor one interval ahead
(bpf/wg_mix_faketcp.h:1709-1717).

Three properties turned out to need a condition, and it is stated exactly:

- Ingress restores what egress sent if and only if the cipher masks at least the four bytes of the type
  word (`PacketPath.PayloadRoundTrip`; `PacketPath.ShortMaskIsLost` shows a message lost under a one-byte
  mask). Shorter masks are excluded by the configuration, not by the GSO path.
- The ICMP message verifies if and only if it is short enough to be summed afresh or the UDP datagram it
  came from verified (`IcmpRewrite.RewriteUdpToIcmp`; `IcmpRewrite.LongDatagramMayFail` shows one that did
  not).
- With nothing failing and nothing foreign in its slots, closing a classic owner succeeds if and only if the
  published journal is the record the owner knows, or gone (`ClassicJournal.Stage.Close`). The journal goes
  past the owner when a record is published and the write reports an error afterwards
  (`ClassicJournal.ErrorAfterPublishing` shows the step); then no further attempt changes anything
  (`ClassicJournal.Stage.CloseAgain`), and only the next start, which reads the record anew, goes on.

Assumptions about code that is not part of this model: an update of control_map that reports an error
has inserted nothing, except that writing zero may have taken effect; no other tool replaces a TC filter
between its last inspection and its deletion; instance and request IDs are never repeated; packet
programs start only after control_map selects the generation; while the lifecycle lease is held nobody else
writes the core maps, the policy maps or the program bank, and each rollback step is specified for
whatever value it finds. The lifecycle modules assume besides that the 60-bit in-flight counter never fills
up and that the runtime identity is not lost while the generation is held: either would poison the gate,
and nothing else does (`GenerationGate.InflightIsExact`).

## Model

| member | source | states |
|---|---|---|
| `GenerationGate.WordIsInteger` | bpf/wg_mix_faketcp.h:1403-1460 | The word split into flags and count is the 64-bit integer the source updates atomically, including the borrow into the flags when a zero count is decremented |
| `GenerationGate.InflightIsExact` | bpf/wg_mix_faketcp.h:1410-1583 | In every interleaving the word is one of the legal ones and its in-flight field is the number of visits that entered and have not left; the unbound-generation POISON branch is never taken, and POISON appears only after a full counter or a lost identity |
| `GenerationGate.QuiesceIsFinal` | internal/dataplane/faketcp_generation_barrier_linux.go:204-239 | Once Quiesce succeeded nobody is inside, and whatever runs afterwards nobody ever enters again |
| `GenerationGate.OneWake` | bpf/wg_mix_faketcp.h:1451-1498 | A CLOSE that had to wait gets exactly one last exit; at most one wake record is emitted, and only after that exit; while none was, as when the ring refused it, the word rests at SEALED with WAKE_ARMED until a later CLOSE seals it |
| `GenerationGate.LostWakeStillCloses` | bpf/wg_mix_faketcp.h:1533-1583 | From every reachable unpoisoned state with nobody inside, one uncontended CLOSE quiesces, so a lost wake record does not block the gate |
| `GateProjection.VisitsDrift` | bpf/wg_mix_faketcp.h:1410-1498 | In every run a packet step leaves the coarse gate alone or seals a draining one, unless the counter is full or the identity lost |
| `GateProjection.ControlMoves` | bpf/wg_mix_faketcp.h:1501-1583 | A control step opens only an unused gate, and otherwise moves it only to draining or sealed |
| `GateProjection.QuiescedShowsSealed` | internal/dataplane/faketcp_generation_barrier_linux.go:204-239 | After a successful Quiesce the coarse gate is sealed, then and in every continuation |
| `Session.Stored.Mutate` | bpf/wg_mix_faketcp.h:885-926 | The one writer of the packet paths admits exactly the calls whose authority and projection match below the maximum revision, and a TX returns the counters from before it |
| `Session.RunClaim` | bpf/wg_mix_faketcp.h:986-1009 | The claim program's four outcomes, each exactly when it applies; only a successful claim changes the session, and only its state |
| `Session.RunTotals` | bpf/wg_mix_faketcp.h:885-926 | Over every run the revision counts the admitted mutations and never wraps, tx is the sum of the sent lengths and rx the unwrapped receive position modulo 2^32, identity never changes |
| `Session.TxRangesContiguous` | bpf/wg_mix_faketcp.h:885-926 | Any two transmitted ranges start where the lengths before them end and do not overlap before wrapping |
| `Session.LastSeenIsPeerMaximum` | bpf/wg_mix_faketcp.h:885-926 | last_seen is the maximum over admitted RX and TOUCH times and the first value; transmissions do not count |
| `Session.RxNeverGoesBack` | bpf/wg_mix_faketcp.h:885-926 | The unwrapped receive position, of which rx is the residue, never decreases in any extension of a run |
| `Session.ClaimIffUnmutated` | bpf/wg_mix_faketcp.h:928-1009 | No ABA: a claim that names a snapshot succeeds after any run exactly when no mutation was admitted since |
| `Session.ClaimIsFinal` | bpf/wg_mix_faketcp.h:719-733 | After a claim no mutation is ever admitted and no field changes |
| `Session.ClaimRepeats` | bpf/wg_mix_faketcp.h:928-1009 | Repeating the claim succeeds and changes nothing, and no request with another expected value ever claims |
| `ControlBudget.RateBound` | bpf/wg_mix_faketcp.h:1688-1730 | For any stretch of n admissions in swap order with clocks t1 to tn, under any contention, n * interval is at most burst * interval + tn - t1 |
| `ControlBudget.NoOverflow` | bpf/wg_mix_faketcp.h:1688-1730 | The cursor and every candidate computed from it stay inside 64 bits in every run |
| `ControlBudget.ExactBurst` | bpf/wg_mix_faketcp.h:1705-1730 | A fresh cursor admits exactly the configured burst at one instant: of n uncontended calls the first min(n, burst), and no later one |
| `ControlBudget.RunKeepsInv` | bpf/wg_mix_faketcp.h:1688-1803 | At every point of every run the shared cursor is the one a sequential replay of the admission log produces, and each admission stayed in its own window |
| `AdmissionToken.Slot.Consume` | bpf/wg_mix_faketcp.h:2369-2383 | Any nonce clears the slot; only the active nonce consumes the token; the history tells which |
| `AdmissionToken.Slot.Issue` | bpf/wg_mix_faketcp.h:2869-2924 | A token is issued exactly into a free slot below the last nonce, with the next larger nonce; a slot in use is cleared and nothing issued; counter and history are given in every case |
| `AdmissionToken.Slot.RunSegment` | bpf/wg_mix_tc.c:1912-1994 | The slot after one segment program: complete after the last segment of its own armed token, untouched between segments, and cleared in every other case |
| `AdmissionToken.Slot.Continue` | bpf/wg_mix_faketcp.h:4029-4097 | A packet is transformed exactly for the active XOR_COMPLETE token of its nonce, and the history gains the consume and then the transform |
| `AdmissionToken.Slot.RunAggregate` | bpf/wg_mix_faketcp.h:3429-3574 | The aggregate path passes exactly when it issued, matched and transformed; slot, counter and history are given in every case |
| `AdmissionToken.Drive` | bpf/wg_mix_faketcp.h:2351-2423 | Any sequence of programs with any nonces and outcomes takes a fresh slot through the run the theorems below speak about |
| `AdmissionToken.TransformHasHistory` | bpf/wg_mix_faketcp.h:2351-2423 | In every run a transformed nonce was issued, then completed by the last segment of its target, then consumed |
| `AdmissionToken.EverythingOnce` | bpf/wg_mix_faketcp.h:2351-2423 | In every run no nonce is issued, completed, consumed or transformed twice |
| `AdmissionToken.NoncesIncrease` | bpf/wg_mix_faketcp.h:2869-2924 | In every run nonces are issued in strictly increasing order up to a counter that never wraps, and only an issued nonce is consumed |
| `AdmissionToken.HistoryGrows` | bpf/wg_mix_faketcp.h:2351-2383 | Whatever runs next, neither history nor counter goes back |
| `Checksum.FoldExact` | bpf/wg_mix_tc.c:790-796 | Four folds of any 64-bit accumulator lose no carry and give the complement of the sum modulo 65535 |
| `Checksum.ThreeFoldsLoseACarry` | bpf/wg_mix_tc.c:790-796 | An accumulator for which three folds are not enough |
| `FakeTcpWire.RotationInverts` | bpf/wg_mix_faketcp.h:3777-3968 | Moving the first twelve bytes to the tail and back is the identity, both ways |
| `FakeTcpWire.RotationSum` | bpf/wg_mix_faketcp.h:3577-3593 | What rotation does to the checksum: nothing at even lengths, the byte-swapped head at odd ones |
| `FakeTcpWire.RotationChecksum` | bpf/wg_mix_faketcp.h:3577-3593 | The sixteen-byte shifted diff adds exactly that correction, in either direction |
| `FakeTcpWire.SumPayload` | bpf/wg_mix_faketcp.h:3610-3727 | The chunk walk covers the payload within its budget and sums it, zero padding included |
| `FakeTcpWire.MaterializeTcpChecksum` | bpf/wg_mix_faketcp.h:3610-3727 | The field it returns is the one nonzero value that makes pseudo-header, header and payload verify |
| `FakeTcpWire.WriteTcp` | bpf/wg_mix_faketcp.h:3908-3945 | The stored TCP header carries the ports, the session's sequence numbers and window, ACK and PSH, and the segment verifies |
| `FakeTcpWire.RewriteIpHeader` | bpf/wg_mix_tc.c:1423-1437 | Length and protocol change, every other IPv4 field and the header's residual stay |
| `FakeTcpWire.Encode` | bpf/wg_mix_faketcp.h:3777-3968 | A packet leaves only if its envelope matched, the session admitted exactly one TX of its length, and the frame is the encoded one |
| `FakeTcpWire.DeriveUdp` | bpf/wg_mix_faketcp.h:5014-5052 | The UDP checksum derived from the TCP checksum alone has the TCP residual corrected for the rotation at odd lengths, and is never written as zero |
| `FakeTcpWire.RebuildIp` | bpf/wg_mix_faketcp.h:5083-5100 | The rebuilt IPv4 header verifies and keeps every field but length and protocol |
| `FakeTcpWire.Decode` | bpf/wg_mix_faketcp.h:4981-5131 | A packet passes only decoded as a whole: payload rotated back, ports and addresses kept, lengths shorter by twelve, the residual of the wire segment, and one admitted RX |
| `PacketPath.DecodedVerifiesIff` | bpf/wg_mix_faketcp.h:5014-5052 | For every payload length, odd or even, and either byte order, the decoded UDP datagram verifies exactly when the TCP segment on the wire did |
| `PacketPath.EncodedIsAdmitted` | bpf/wg_mix_faketcp.h:4621-4810 | Every packet the encoder emits parses at the peer and is admitted as a data packet of its own message type, whenever the peer's session map holds an established session of the running runtime under the addresses and ports of the original datagram |
| `PacketPath.FrameRoundTrip` | bpf/wg_mix_faketcp.h:4836-5131 | Decoding an encoded frame gives back link header, IPv4 fields, addresses, ports, lengths and payload, and both checksums verify |
| `PacketPath.PayloadRoundTrip` | bpf/wg_mix_tc.c:2492-2535 | For every accepted payload and matching profile, ingress undoes egress if and only if the cipher masks at least the type word |
| `PacketPath.ShortMaskIsLost` | bpf/wg_mix_tc.c:2492-2535 | A message that goes out under a one-byte mask and does not come back |
| `PacketPath.PathRoundTrip` | bpf/wg_mix_tc.c:2249-2294 | End to end through mask, rotation, inverse rotation and unmasking the receiver gets the sender's payload |
| `PacketPath.TransformEgress` | bpf/wg_mix_tc.c:2067-2339 | The egress programs accept only standard messages and turn the payload into its egress image; an IPv6 datagram keeps its residual, and no byte changes but the payload and, for IPv6, the checksum |
| `PacketPath.UpdateTypeWord` | bpf/wg_mix_tc.c:1061-1085 | The new type word is stored and, in maintained mode, the UDP residual kept |
| `PacketPath.TransformIngress` | bpf/wg_mix_tc.c:2492-2535 | The ingress programs leave the ingress image of the payload; a datagram with a checksum keeps its residual, one without keeps every byte of its header |
| `TypeWord.KindRoundTrip` | bpf/wg_mix_tc.c:974-1046 | In a matching profile each disguise decodes to its own message type and no other |
| `XorChain.ExpandKey` | internal/abi/abi.go:494-505 | The in-place loop fills the 256-byte table with the repeated key |
| `XorChain.TableIsPeriodic` | bpf/wg_mix_tc.c:1103-1106 | Reading the table at the low eight bits of an offset reads the key modulo its length |
| `XorChain.XorSegment` | bpf/wg_mix_tc.c:1215-1292 | One segment program masks exactly its bounds and reports a length error exactly when it has none |
| `XorChain.XorSegmentDiff` | bpf/wg_mix_tc.c:1294-1400 | The same in manual checksum mode; the UDP residual is kept for any end of the datagram |
| `XorChain.RunChain` | bpf/wg_mix_tc.c:1912-1994 | The tail-call chain ends within eight programs, never reports its own length error for targets from 4 to 2048, and masks exactly the bytes from start to target |
| `XorChain.RunDiffChain` | bpf/wg_mix_tc.c:1996-2033 | The chain with checksum maintenance does the same and keeps the UDP residual |
| `XorChain.TableMaskIsKeyMask` | bpf/wg_mix_tc.c:1103-1106 | Masking with the expanded table is masking payload byte i with key byte i modulo the key length |
| `XorChain.RunKeyed` | bpf/wg_mix_tc.c:1912-1994 | From the configured key to the packet: every byte from start to target is masked with its own key byte, and no other byte changes |
| `XorChain.IngressUndoesEgress` | bpf/wg_mix_tc.c:1996-2033 | Masking from byte 0, unmasking four bytes by hand and masking from byte 4 is the identity |
| `GsoTransform.SplitFlatten` | bpf/wg_mix_faketcp.h:2989-2997 | Splitting by gso_size inverts concatenation of well-shaped segments |
| `GsoTransform.SplitCount` | bpf/wg_mix_faketcp.h:3098-3152 | The number of segments is the rounded-up quotient the projection demands |
| `GsoTransform.SegmentLength` | bpf/wg_mix_faketcp.h:2989-2997 | The computed length of segment i is the length of segment i |
| `GsoTransform.GeometryBounds` | bpf/wg_mix_faketcp.h:45-63 | Every admitted geometry has at most 2046 segments and 3968 chunks, the fixed loop bounds |
| `GsoTransform.ValidateSegments` | bpf/wg_mix_faketcp.h:2999-3075 | Validation passes only if every logical segment is a whole standard message that its cipher can mask |
| `GsoTransform.RewriteTypes` | bpf/wg_mix_faketcp.h:3155-3209 | The loop retags the first word of every segment and nothing else |
| `GsoTransform.XorChunks` | bpf/wg_mix_faketcp.h:3215-3373 | Masking by flat chunk index masks every segment's own prefix, each byte exactly once |
| `GsoTransform.TransformAggregate` | bpf/wg_mix_faketcp.h:3429-3529 | Transforming the aggregate in place equals splitting by gso_size and transforming each segment alone; no byte outside the payload changes |
| `IcmpRewrite.SumSmall` | bpf/wg_mix_tc.c:832-873 | The fresh checksum of a short message of whole words is the complement of its sum |
| `IcmpRewrite.DeriveChecksum` | bpf/wg_mix_tc.c:875-930 | The derived checksum accounts for every word that leaves and every word that enters; a datagram without checksum is refused |
| `IcmpRewrite.DerivedResidual` | bpf/wg_mix_tc.c:875-930 | The whole rewritten message has the residual of the UDP datagram with its pseudo-header, also when the declared length runs past the frame |
| `IcmpRewrite.RewriteUdpToIcmp` | bpf/wg_mix_tc.c:1439-1493 | The rewrite changes exactly message, protocol and header checksum; the message verifies if and only if it is short or the datagram verified; a short datagram that declares more than the frame holds is refused |
| `IcmpRewrite.LongDatagramMayFail` | bpf/wg_mix_tc.c:875-930 | A long datagram with a wrong checksum, whose message therefore does not verify |
| `L3Parser.ParsersAgree` | bpf/wg_mix_faketcp.h:2097-2163 | The generic parser with its projection accepts exactly the UDP frames the L3 parser accepts that carry a payload word, with the same descriptor |
| `L3Parser.L3OnlyWholeUdp` | bpf/wg_mix_faketcp_l3.h:129-189 | A UDP frame the L3 parser accepts is a whole datagram in one unfragmented packet inside the frame |
| `L3Parser.L3AcceptsWholeTcp` | bpf/wg_mix_faketcp_l3.h:86-189 | Every whole TCP segment in one unfragmented packet inside the frame is accepted with its own lengths |
| `L3Parser.Ipv4Inside` | bpf/wg_mix_faketcp_l3.h:129-189 | The transport region of an accepted IPv4 frame ends with the declared packet inside the frame |
| `L3Parser.StepOver` | bpf/wg_mix_faketcp_l3.h:264-295 | The walk steps over exactly the extension headers that lie inside the packet, hop-by-hop only first, at most eight |
| `L3Parser.WalkExtensions` | bpf/wg_mix_faketcp_l3.h:224-321 | The walk stops with success exactly when the header chain reaches TCP or UDP within eight headers and 512 bytes |
| `L3Parser.ParseIpv6` | bpf/wg_mix_faketcp_l3.h:191-321 | The IPv6 parser accepts exactly the packets with such a chain and a valid transport header, and reports a transport region inside packet and frame |
| `PolicyTransaction.Snapshot` | internal/dataplane/faketcp_policy.go:137-188 | The map made of a list of entries is as large as the list exactly when no key is listed twice, which is how a plan is checked for duplicates |
| `PolicyTransaction.BuildPlan` | internal/dataplane/faketcp_policy_linux.go:758-796 | A plan is refused exactly when a phase lists a key twice; otherwise its operations hold every key once and in latch order: controls, ports, interfaces |
| `PolicyTransaction.RollbackOp` | internal/dataplane/faketcp_policy_linux.go:815-900 | A value that is not the one inserted stays and the call fails; only the cursor of a control policy behind a sealed gate may differ; success means that the key is gone |
| `PolicyTransaction.Rollback` | internal/dataplane/faketcp_policy_linux.go:928-993 | At every step a latch implies all ports and controls and a port all controls, and only values of the plan are taken out; success leaves no key of the plan and the gate sealed |
| `PolicyTransaction.InsertAll` | internal/dataplane/faketcp_policy_linux.go:445-483 | Whatever fails, exactly a prefix of the plan is in place, and every step on the way kept the latch order |
| `PolicyTransaction.Transaction.Stage` | internal/dataplane/faketcp_policy_linux.go:412-483 | Success leaves the whole plan in place; failure leaves none of it, or a pending rollback that holds the lease |
| `PolicyTransaction.Transaction.RollbackStage` | internal/dataplane/faketcp_policy_linux.go:548-571 | A live stage ends only through a complete rollback behind a sealed gate; a failure keeps it live |
| `PolicyTransaction.Transaction.BindOwner` | internal/dataplane/faketcp_policy_linux.go:638-660 | Only the stage of an open transaction is bound to a collection, and a binding is never lost |
| `PolicyTransaction.Transaction.Commit` | internal/dataplane/faketcp_policy_linux.go:300-351 | Commit transfers exactly an active stage that is bound to its collection, together with its program, and gives the lease up with it |
| `PolicyTransaction.Transaction.Close` | internal/dataplane/faketcp_policy_linux.go:353-388 | Closing is refused exactly while a stage is live, so the lease outlives every entry it protects |
| `CoreStage.Stage.StageEntries` | internal/dataplane/experimental_core_stage_linux.go:118-282 | Success leaves every entry in place; in none of the recorded steps was a generation selected, and only core entries change |
| `CoreStage.Stage.CommitControl` | internal/dataplane/experimental_core_stage_linux.go:284-314 | The selector moves only from zero to a whole generation, and success means it did |
| `CoreStage.Stage.Deactivate` | internal/dataplane/experimental_core_stage_linux.go:421-451 | The stage counts as deactivated only when the selector was read as zero; a failure keeps the commitment |
| `CoreStage.Stage.Undo` | internal/dataplane/experimental_core_stage_linux.go:331-359 | An entry is removed only if it still holds the staged value; any other value stays, and the entry does not count as gone |
| `CoreStage.Stage.Close` | internal/dataplane/experimental_core_stage_linux.go:316-365 | Nothing is dismantled while the generation is selected; only staged entries that still hold their value go; success leaves none of them |
| `RuntimeLifecycle.Runtime.CommitAttached` | internal/dataplane/experimental_runtime_linux.go:1225-1265 | Policy, OPEN, control write and lease release in an order that is safe at every recorded step; success means the generation is selected |
| `RuntimeLifecycle.Runtime.Activate` | internal/dataplane/experimental_runtime_linux.go:1172-1223 | A successful activation ends with the whole generation selected; a failed one is safe to clean up |
| `RuntimeLifecycle.Runtime.StageProgram` | internal/dataplane/faketcp_program_array_linux.go:74-135 | Success means the bank holds our program, inserted or found identical |
| `RuntimeLifecycle.Runtime.EmptyBank` | internal/dataplane/faketcp_program_array_linux.go:138-187 | The bank is emptied only of our own program; a foreign one stays and the call fails |
| `RuntimeLifecycle.Runtime.CleanupUncommitted` | internal/dataplane/experimental_runtime_linux.go:1309-1422 | A repeatable cleanup that reports completion only with nothing selected, the gate shut, and core and collection gone |
| `RuntimeLifecycle.Runtime.Close` | internal/dataplane/experimental_runtime_linux.go:1718-1871 | The same for a committed runtime |
| `RuntimeLifecycle.Runtime.ReleaseCollection` | internal/dataplane/experimental_runtime_linux.go:1814-1834 | The collection is released only with nothing selected, the gate not open and nothing attached |
| `RuntimeLifecycle.Lifetime` | internal/dataplane/experimental_runtime_linux.go:1172-1871 | From a plan through activation and any number of cleanup and close attempts: the record holds every operation of the run one at a time from the empty world on; at each a selected generation is whole, its latches are in order, and the collection is not released while selector, gate or attachments are live; none overwrites a core entry, a policy or the bank, and each takes out only what the plan put in, a policy with a drifted cursor only behind a sealed gate |
| `ClassicJournal.System.Persist` | internal/dataplane/faketcp_classic_owner_linux.go:316-436 | Publishing a record goes through one legal journal step at every crash point, and an error leaves the old or the new record whole |
| `ClassicJournal.System.RecoverNext` | internal/dataplane/faketcp_classic_owner_linux.go:291-314 | An interrupted next file goes away without touching the published journal |
| `ClassicJournal.System.Remove` | internal/dataplane/faketcp_classic_owner_linux.go:438-471 | Only a detaching record whose filters are all gone is removed |
| `ClassicJournal.System.InspectAll` | internal/dataplane/faketcp_classic_linux.go:409-460 | The pass deletes nothing and succeeds only if every recorded slot was seen free or, on the boot that recorded it, with its recorded program |
| `ClassicJournal.System.RemoveFilters` | internal/dataplane/faketcp_classic_linux.go:409-512 | If anything is deleted, every recorded slot had been free or held its recorded program at some step before the first deletion; success leaves none of the filters |
| `ClassicJournal.Stage.Close` | internal/dataplane/faketcp_classic_linux.go:543-619 | At every crash point the journal is absent or one whole record that lists every filter of ours; it changes only into its first record, the next record of the same owner, or, once detaching, away; a step deletes at most one filter, and one the journal lists on this boot; success leaves no journal and no filter; with nothing failing and clean slots it succeeds if and only if the journal is the record this owner knows, or gone; any other journal stops everything before anything is touched |
| `ClassicJournal.Stage.CloseAgain` | internal/dataplane/faketcp_classic_linux.go:543-619 | An owner whose journal went past the record it knows never closes, however often it tries, and nothing changes |
| `ClassicJournal.StageClassic` | internal/dataplane/faketcp_classic_linux.go:258-353 | Intent is journaled before the first filter, so every filter of ours is listed at every crash point; success publishes the ACTIVE record; the journal goes past the returned owner only if publishing that record reported an error |
| `ClassicJournal.ErrorAfterPublishing` | internal/dataplane/faketcp_classic_owner_linux.go:410-419 | The step after which a reported error leaves a live owner behind its own journal |
| `ClassicJournal.Recover` | internal/dataplane/faketcp_classic_linux.go:174-215 | From any crash state, crash-safe again at every step, success removes journal and filters, deleting only filters the journal listed on this boot; with nothing failing and nothing foreign in the slots it succeeds |
| `ClassicJournal.Reboot` | internal/dataplane/faketcp_classic_linux.go:174-215 | After a reboot, with whatever reached stable storage, the host is again a state recovery may start from |
| `ClassicJournal.Restart` | internal/dataplane/faketcp_classic_linux.go:174-215 | After a crash at any recorded step without a reboot, recovery succeeds once nothing fails, unless something foreign sits in a listed slot |
| `ClassicJournal.Restarts` | internal/dataplane/faketcp_classic_linux.go:174-353 | Staging, closing and any number of recoveries with a crash after any step and reboots in between: the record of the whole life is safe at every step, and a recovery that reports success leaves no journal and no filter |
| `DaemonRequests.AtMostOnce` | internal/daemon/daemon.go:381-459 | In every run with crashes anywhere each request is executed at most once and only by the instance it names |
| `DaemonRequests.StopSupersedes` | internal/daemon/daemon.go:415-441 | Once a batch holds a stop, none of its reloads is ever executed, whether or not the daemon dies before the shutdown |
| `DaemonRequests.QueueIsBounded` | internal/daemon/request.go:76-112 | The queue never holds more than 256 request files |
| `DaemonRequests.RemovedOnlyIfAcked` | internal/daemon/request.go:166-220 | The daemon removes a request file only when an acknowledgement exists that passes validation for it: the same kind, and either the instance the request names or a note that another instance answered |
| `DaemonRequests.AckOutlivesRequest` | internal/daemon/request.go:222-298 | Nobody, neither pruning nor a client, removes an acknowledgement whose request file is still there |
| `DaemonRequests.RunKeepsInv` | internal/daemon/request.go:133-298 | Every step of every client and of the daemon keeps the file, lock, execution and phase invariants together |

## Left out

- Kernel helpers and kfuncs appear by contract only: checksum diff and replace as congruence modulo 65535, loads and stores that may fail, tail calls that may not dispatch. The kfunc that commits the GSO header is not part of this model.
- Packets that are dropped: every helper may fail, so packet contracts say what a packet that passes looks like, not that one passes.
- The Linux 5.15 legacy branches and the stage-profile build: the modern build is modelled.
- Statistics, MTU audit counters, JSON views, status files and the contract hash of the GSO projection.
- The reverse ICMP to UDP rewrite, ICMP sequence memory, listener lookup and routing of packets to programs.
- Per-flow spacing of control events: the hint cache may evict at any time, so only the policy cursor bound is a promise. Calls the cache turns away are calls that never start here.
- FakeTcpWire.Encode: the MTU and route checks of the prepare step are not modelled.
- FakeTcpWire.Decode: the ingress admission hand-over from XDP to TC through packet metadata is not modelled.
- Building the policy snapshot from the control state: referential checks and canonical sorting inside a phase are flat validation.
- Listener and profile lookup in the XDP checkpoint: they are the parameters of the model's checkpoint.
- PolicyTransaction.Transaction.Stage: the isolation backend behind the lease is one check that may fail.
- Releasing a policy stage after its collection was closed: defined beside the transaction, but the runtime never calls it.
- TCX and XDP link details: attaching and detaching are one operation each that may fail halfway.
- ClassicJournal.System.Persist: ownership, mode and size checks on the journal files are one check that may fail.
- DaemonRequests.AtMostOnce: parsing and validation of request files, the retained-acknowledgement count and the order of a batch by creation time are not modelled; the batch may come in any order.
- The production coordinator, configuration, command line and doctor checks: flat validation or exclusion that rests on a supervisor outside the repository.
