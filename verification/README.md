# A verified model of the NetMux data plane and flow scheduler

NetMux aggregates several network interfaces behind one TUN device. An egress thread reads IP packets
from the TUN, asks the scheduler for an interface, registers a NAT session, rewrites the source address
and sends the packet on a raw socket. One capture thread per interface matches replies against the
session table, rewrites their destination to the client and writes them back to the TUN. The user
interface changes the policy and refreshes the candidate interfaces while the threads run.

The model has one module per file:

- `Bytes`, `Numbers`, `Float`, `Sequences`, `Order`, `Text`: bytes and words, quotients, binary64 rounding
  of naturals, matching multisets, string order and sorting, decimal and hexadecimal text and the strict
  IPv4 address parser.
- `Checksum`, `Rewrite`, `RewriteLaws`: the Internet checksum, the transport checksum, the in-place
  address rewrites on a prefix of a reused buffer, and the laws of those rewrites.
- `Ipv6Text`, `Packet`: IPv6 text, flow parsing for IPv4 and IPv6, and how parsing meets rewriting.
- `Wire`: the same packets byte by byte: which bytes parsing reads, and the sums a receiver forms.
- `NatLog`, `Nat`: the abstract session log, and the table of two maps and a counter that represents it.
- `Fnv`, `Policy`, `Scheduling`: the hash, interface selection, and what selection guarantees.
- `Aggregator`, `Hosts`, `Engine`: candidate refresh, routing, the flow table and settings; ranking in terms
  of the host's interfaces; and fairness over runs of the engine, alone and inside the data plane.
- `DataPlane`, `Threads`, `History`: the threads as a step machine whose steps are the lock-guarded
  sections and the I/O calls, safety over every interleaving, what one thread may rely on while the others
  run, and the session table as the outcome of the trace's first registrations.
- `Delivery`, `Scenarios`: exactly when a reply reaches its client, over every interleaving, and whole runs
  in which it does, in which it is lost, and in which it reaches another client.
- `Loops`: the loop bodies over the real tables and buffers, and the maps and threads they start with.

Specification functions carry the meaning; the methods with loops and in-place updates are proved equal
to them, and the lemmas state what the source promises about those functions. `{:induction false}` on
the lemmas proved by induction keeps automatic induction off, so every inductive step is written out.

Where the code and its comments differ, the model follows the code and says exactly when the comment holds:

- The checksum word is taken at segment offset 16 for UDP too (packet.rs:66, packet.rs:99-103). RFC 768
  has it at offset 6, so two payload bytes are overwritten: `UdpPayloadKeptExactly`, `UdpPayloadCorrupted`.
- The session returned by `register` is dropped and the current interface's address is used
  (main.rs:498-507), so a flow that changes interface loses its replies: `ReplyMatchedExactly`,
  `ReplyDeliveredExactly`, `MovedFlowLosesReply`.
- Port preservation is called safe across egress addresses (nat.rs:8-10). Behind one egress address two
  clients can share a return key, and a reply can reach the wrong one: `SharedReturnKey`, `ReplyMatchedExactly`,
  `ReplyReachesWrongClient`.
- The IPv6 text writes one ':' for a compressed run (packet.rs:254-256): `Ip6TextEqualExactly`, `Ip6TextCollides`.
- A refresh overwrites the configured priority (aggregator.rs:94-100): `ConfiguredPriorityIgnored`.
- Least-loaded ties go to list order, not to pool order (policy.rs:188-197): `LeastLoadedTieExactly`,
  `LeastLoadedTie`.
- The pool's slot count is a float expression (policy.rs:152): `SlotsIsProductExactly`, `PoolCountExactly`,
  `PoolOffByOne`.

## Model

| member | source | states |
|---|---|---|
| Checksum.Checksum | crates/netmux-core/src/packet.rs:30-44 | for every input of at most 131074 bytes the u32 loop returns the complement of the ones' complement representative of the word sum |
| Checksum.SumWords | crates/netmux-core/src/packet.rs:31-39 | the accumulator never leaves u32 and ends at the big-endian word sum, odd byte as high half |
| Wire.WordSumIsWeighted | crates/netmux-core/src/packet.rs:31-39 | that sum counts every byte at an even index 256 times and at an odd index once |
| Wire.ChecksumKnownOdd | crates/netmux-core/src/packet.rs:37-39 | three bytes 01 02 03 have checksum fbfd: the last byte is a high half |
| Wire.ChecksumKnownVector | crates/netmux-core/src/packet.rs:310-317 | the classic header has checksum b861 |
| Checksum.FoldAndComplement | crates/netmux-core/src/packet.rs:40-43 | carry folding ends within two rounds for every u32 and keeps the value modulo 65535 and its zero |
| Checksum.NoOverflowExactly | crates/netmux-core/src/packet.rs:31-39 | no input of n bytes overflows the u32 sum if and only if n <= 131074 |
| Checksum.RepUnique | crates/netmux-core/src/packet.rs:40-43 | the folded value is the only 16-bit word congruent to the sum modulo 65535 that is 0 just when the sum is |
| Checksum.ChecksumIgnoresWordOrder | crates/netmux-core/src/packet.rs:33-36 | any reordering of the 16-bit words gives the same checksum (RFC 1071 section 2) |
| Checksum.ChecksumSplits | crates/netmux-core/src/packet.rs:33-43 | checksums of two parts split at an even offset combine to the checksum of the whole |
| Checksum.ChecksumCommutesWithSwap | crates/netmux-core/src/packet.rs:33-43 | swapping the bytes of every pair swaps the bytes of the checksum (RFC 1071 section 2) |
| Checksum.ChecksumAllOnesExactly | crates/netmux-core/src/packet.rs:40-43 | 0xffff is returned exactly for all-zero data |
| Checksum.VerifiesExactly | crates/netmux-core/src/packet.rs:29-44 | data verifies (checksum 0) exactly when its field holds the checksum of the rest or 0xffff for 0 |
| Rewrite.TransportChecksum | crates/netmux-core/src/packet.rs:48-78 | equals the plain checksum of pseudo-header plus segment with bytes 16 and 17 zeroed when both exist, for every segment of at most 131062 bytes |
| Wire.TransportChecksumExactly | crates/netmux-core/src/packet.rs:48-78 | it is the complement of addresses, protocol, 16-bit length and the segment's bytes, bytes 16 and 17 counted as zero when both exist |
| Rewrite.RewriteIpv4Source | crates/netmux-core/src/packet.rs:83-106 | in place on the first n bytes: accepted exactly for IPv4 with its whole header, address stored, both sums recomputed, nothing past n touched |
| Rewrite.RewriteIpv4Dest | crates/netmux-core/src/packet.rs:109-132 | the same for the destination address |
| RewriteLaws.RewriteFrame | crates/netmux-core/src/packet.rs:83-132 | no byte changes outside 10..12, the address and ihl+16..ihl+18 for protocols 6 and 17 |
| RewriteLaws.LastRewriteWins | crates/netmux-core/src/packet.rs:83-132 | two rewrites of one side equal the last one alone, on the whole buffer |
| RewriteLaws.RewritesCommute | crates/netmux-core/src/packet.rs:83-132 | source and destination rewrites commute on the whole buffer |
| RewriteLaws.RewrittenVerifies | crates/netmux-core/src/packet.rs:93-103 | after a rewrite the header and, when the field exists, pseudo-header plus segment pass the receiver's check, for odd and even lengths |
| Wire.RewrittenAccepted | crates/netmux-core/src/packet.rs:83-132 | in the packet's own bytes: after a rewrite the header adds up to all ones, and for TCP and UDP with 18 segment bytes so do addresses, protocol, length and segment (RFC 791 section 3.1, RFC 793 section 3.1) |
| RewriteLaws.RestoredExactly | crates/netmux-core/src/packet.rs:83-132 | rewriting away and back is the identity exactly when the packet's checksums verify and no field is 0xffff |
| RewriteLaws.RestoredUpToZero | crates/netmux-core/src/packet.rs:83-132 | a verifying packet comes back byte for byte, except that a 0xffff field becomes 0x0000 |
| RewriteLaws.UdpPayloadKeptExactly | crates/netmux-core/src/packet.rs:98-104 | a rewrite keeps a UDP payload exactly when it is shorter than 10 bytes or its word at offset 16 already equals the new sum |
| RewriteLaws.UdpPayloadCorrupted | crates/netmux-core/src/packet.rs:98-104 | every UDP datagram with ff ff at payload offset 8 is changed by every rewrite |
| Text.ParseAddrExactly | crates/netmux-core/src/nat.rs:100-102 | address parsing returns an address exactly for its canonical dotted-decimal text, so rendering then parsing is the identity |
| Text.HexValueOfHex | crates/netmux-core/src/packet.rs:262 | a hextet's text denotes the hextet in base 16, without leading zeros |
| Ipv6Text.Ip6 | crates/netmux-core/src/packet.rs:221-271 | both loops compute the text of the eight hextets with the leftmost longest zero run compressed |
| Ipv6Text.ScanFinds | crates/netmux-core/src/packet.rs:229-249 | the scan variables hold the leftmost longest run of zeros so far and the run that ends here |
| Ipv6Text.TextIsClosed | crates/netmux-core/src/packet.rs:250-270 | the text is the join of the kept hextets with a mark at an end the run touches |
| Ipv6Text.Ip6TextEqualExactly | crates/netmux-core/src/packet.rs:252-266 | two addresses get one text exactly when they keep the same hextets and their runs agree on touching the start and the end |
| Ipv6Text.Ip6TextCollides | crates/netmux-core/src/packet.rs:252-258 | 2001:db8::1 and 2001::db8:1 are different and render the same |
| Ipv6Text.Ip6KnownText | crates/netmux-core/src/packet.rs:252-262 | 2001:db8::1 is written 2001:db8:1 |
| Ipv6Text.Ip6TextIsNotIpv4 | crates/netmux-core/src/packet.rs:252-270 | no IPv6 text reads as an IPv4 address |
| Packet.Parse | crates/netmux-core/src/packet.rs:137-147 | dispatch on the version nibble computes the parsed flow for every byte string |
| Wire.V4FlowIsBytes | crates/netmux-core/src/packet.rs:149-175 | the fields of an IPv4 flow are byte 9, bytes 12..16 and 16..20, and for TCP and UDP the first two words of the segment, source port first, else 0 |
| Wire.V4HeaderParses | crates/netmux-core/src/packet.rs:149-175 | any header of 20 to 60 bytes followed by a TCP or UDP segment parses to the addresses, protocol and ports put in |
| Packet.ParseV6 | crates/netmux-core/src/packet.rs:179-219 | the walk reads in bounds on every byte string and equals the recursive walk of at most eight headers |
| Wire.V6AddressText | crates/netmux-core/src/packet.rs:183-184 | source and destination are the texts of bytes 8..24 and 24..40 |
| Wire.V4AcceptedExactly | crates/netmux-core/src/packet.rs:137-156 | versions other than 4 and 6 are refused, and IPv4 is accepted exactly with its whole header of at least 20 bytes |
| Wire.V6OneExtension | crates/netmux-core/src/packet.rs:189-210 | one extension header: refused without its first two bytes, otherwise next type, place and ports are read from the stated bytes |
| Wire.V6OtherHeaderStops | crates/netmux-core/src/packet.rs:189-206 | a first header other than 0, 43, 60, 135, 6 and 17 ends the walk with both ports zero |
| Packet.V6ChainParses | crates/netmux-core/src/packet.rs:185-210 | TCP or UDP behind any chain of up to eight extension headers parses to its protocol and ports; behind nine or more to the ninth header's type and port zero (RFC 8200 section 4) |
| Packet.ParsesExactlyWellFormed | crates/netmux-core/src/packet.rs:149-156 | a version-4 packet parses exactly when the rewrites accept it with a header of at least 20 bytes |
| Packet.ParseAfterRewrite | crates/netmux-core/src/packet.rs:149-175 | parsing after a rewrite gives the same flow with only that address replaced |
| Packet.V4AddressesReadBack | crates/netmux-core/src/packet.rs:158-159 | the text addresses of an IPv4 flow parse back to the packet's own octets |
| Packet.V4KeyExactly | crates/netmux-core/src/packet.rs:24-26 | two IPv4 packets have equal keys exactly when addresses and ports agree; the protocol plays no part |
| Wire.V4KeyText | crates/netmux-core/src/packet.rs:24-26 | the key of an IPv4 packet in its own octets and port numbers |
| Wire.KeyKnownText | crates/netmux-core/src/packet.rs:278-292 | the key of the source's test packet |
| Packet.V6AddressesAreNotV4 | crates/netmux-core/src/packet.rs:183-184 | neither address of an IPv6 flow parses as IPv4 |
| Packet.KeyIsAscii | crates/netmux-core/src/packet.rs:24-26 | every parsed flow's key is ASCII |
| Nat.NatTable.Register | crates/netmux-core/src/nat.rs:56-79 | the two maps and the counter follow registration on the log: reuse, append, or refuse |
| Nat.NatTable.LookupReturn | crates/netmux-core/src/nat.rs:83-97 | whatever the map order, it finds a session with the return key exactly when a scan of the log would |
| Nat.NatTable.Sessions | crates/netmux-core/src/nat.rs:51-53 | the session count is the length of the log |
| Nat.AppendRet | crates/netmux-core/src/nat.rs:76-77 | each stored index stays that of the latest session with its return key, modulo 2^64 |
| Nat.IndexIsPosition | crates/netmux-core/src/nat.rs:76-78 | while there are at most 2^64 sessions the stored index is the position of the latest session with the key |
| Nat.OutKeyIsBytes | crates/netmux-core/src/nat.rs:57-59 | the outbound key of an IPv4 packet is its protocol byte, address bytes and port bytes |
| Nat.V6NeverRegisters | crates/netmux-core/src/nat.rs:57-58 | no IPv6 flow is ever registered |
| NatLog.RegisterOnce | crates/netmux-core/src/nat.rs:60-78 | one registration keeps every session, stays distinct, and leaves exactly one session for the flow |
| NatLog.RunKeepsSessions | crates/netmux-core/src/nat.rs:56-79 | over any sequence of registrations the log only grows and outbound keys stay distinct |
| NatLog.SessionIsFirstCall | crates/netmux-core/src/nat.rs:60-62 | the session of a flow is for ever the one made from its first call |
| NatLog.SessionWasCalled | crates/netmux-core/src/nat.rs:64-75 | every session comes from the first call with its key, with that call's interface and address |
| NatLog.LookupDeterministicExactly | crates/netmux-core/src/nat.rs:83-97 | lookups have one answer each exactly when no two sessions share a return key |
| NatLog.SingleClientFollowsIndex | crates/netmux-core/src/nat.rs:83-97 | with one client address the answer is unique and is the log entry at the latest index of the key |
| NatLog.SharedReturnKey | crates/netmux-core/src/nat.rs:8-10 | two sessions share a return key exactly when they differ only in client behind one egress address |
| NatLog.ReplyMayGoToWrongClient | crates/netmux-core/src/nat.rs:83-97 | two registrations of clients with equal ports, server and egress address: both sessions are possible answers |
| Fnv.Fnv1a | crates/netmux-core/src/policy.rs:205-212 | the loop computes the recursive 32-bit hash |
| Fnv.HashByBytes | crates/netmux-core/src/policy.rs:205-212 | the empty hash is 0x811c9dc5, and one more byte is mixed in first, then the product with 0x01000193 is taken modulo 2^32 |
| Fnv.XorBits | crates/netmux-core/src/policy.rs:208 | a bit of the mix is set exactly when one of the two numbers has it |
| Fnv.HashOfA | crates/netmux-core/src/policy.rs:205-212 | the published value for the one-byte input a, e40c292c |
| Fnv.SuffixCancels | crates/netmux-core/src/policy.rs:205-212 | a common suffix neither makes nor hides a collision |
| Fnv.OneByteNeverCollides | crates/netmux-core/src/policy.rs:205-212 | inputs that differ in exactly one byte have different hashes |
| Aggregator.KeysOneCharApart | crates/netmux-core/src/policy.rs:184-185 | flow keys that differ in exactly one character have different hashes |
| Policy.WeightedPool | crates/netmux-core/src/policy.rs:147-160 | the nested pushes and the sort give the sorted pool of names with each share's slots |
| Order.LessExactly | crates/netmux-core/src/policy.rs:158 | names are sorted byte-wise: a proper prefix first, otherwise the first difference decides |
| Scheduling.ShareOfCandidate | crates/netmux-core/src/policy.rs:148-151 | a candidate counts with its own weight, and with 1 when that is 0 |
| Policy.SelectInterface | crates/netmux-core/src/policy.rs:132-202 | every strategy and algorithm computes the selection function, counter included |
| Policy.LeastLoadedScan | crates/netmux-core/src/policy.rs:187-198 | the scan returns the leftmost candidate of minimal load |
| Scheduling.LeastLoadedPicks | crates/netmux-core/src/policy.rs:187-198 | the pick has the smallest sum of transmitted and received bytes of all enabled and healthy candidates, strictly below those listed before it |
| Policy.SortedHeadIsBest | crates/netmux-core/src/policy.rs:163-168 | the head of the stable sort is the leftmost candidate of maximal priority |
| Scheduling.SlotsIsProductExactly | crates/netmux-core/src/policy.rs:152 | for all totals and weights the binary64 expression is total * weight if and only if the product is below 2^52, or even with an odd part below 2^53 and within u64, or 2^64 - 1 with a rounded product past u64 where the cast saturates |
| Scheduling.PoolCountExactly | crates/netmux-core/src/policy.rs:147-160 | with distinct names an interface holds total * weight slots if and only if that condition holds for its weight |
| Scheduling.PoolOffByOne | crates/netmux-core/src/policy.rs:147-160 | any two interfaces with the valid weights 2^26 + 1 and 2: the first has one slot too many |
| Scheduling.PoolProportions | crates/netmux-core/src/policy.rs:147-160 | when every slot count is exact, the pool has total * total slots and each name fills one block of total * weight slots after the names before it |
| Scheduling.PickDependsOnOffer | crates/netmux-core/src/policy.rs:170-186 | round-robin and hash picks depend only on the multiset of usable names and weights |
| Scheduling.PickIgnoresOrder | crates/netmux-core/src/policy.rs:158-186 | no permutation of the candidate list changes a round-robin or hash pick |
| Scheduling.SelectTotal | crates/netmux-core/src/policy.rs:138-201 | every strategy returns the name of an enabled and healthy interface exactly when one exists |
| Scheduling.FailoverPicksChosen | crates/netmux-core/src/policy.rs:163-168 | failover picks the leftmost usable candidate of maximal priority |
| Scheduling.FailoverSwitchesMinimally | crates/netmux-core/src/policy.rs:163-168 | when only health changes, the next pick is the same if and only if the picked interface stays usable and no better-ranked one becomes usable |
| Scheduling.FailoverRecovers | crates/netmux-core/src/policy.rs:163-168 | while the picked interface is down another or none is picked; when it is back, so is the pick, if and only if no better-ranked one has become usable |
| Scheduling.LeastLoadedTieExactly | crates/netmux-core/src/policy.rs:187-198 | for every usable list the pick is the first name of least load in the weighted pool if and only if the leftmost candidate of least load has the smallest name among them |
| Scheduling.LeastLoadedTie | crates/netmux-core/src/policy.rs:187-198 | so with equal loads the first of two in the list wins although the pool starts with the other name |
| Scheduling.RoundRobinCount | crates/netmux-core/src/policy.rs:170-178 | over any run without a counter wrap the picks of each name follow a closed form in m / P, m % P and the block offset |
| Scheduling.RoundRobinFair | crates/netmux-core/src/policy.rs:170-178 | any total * total consecutive picks, from any counter value, choose each interface exactly total * weight times |
| Engine.RoutedExactly | crates/netmux-core/src/aggregator.rs:160-176 | a packet is routed exactly when the engine is enabled, it parses and an interface is available; only then the flow's entry changes, and the counter by one under round-robin |
| Engine.EngineRotates | crates/netmux-core/src/aggregator.rs:169-176 | over any run of the engine that keeps round-robin and the offer, the counter advances by one per pick, modulo 2^64, and pick number n is the pool slot n places on |
| Engine.EngineRoundRobinFair | crates/netmux-core/src/aggregator.rs:169-176 | any total * total consecutive picks of such a run without a wrap among them choose each interface exactly total * weight times |
| Engine.EngineFollowsRun | crates/netmux-app/src/main.rs:481-484 | in every interleaving the engine of the data plane goes through a run of the engine |
| Aggregator.Aggregator.Create | crates/netmux-core/src/aggregator.rs:61-71 | an engine is refused exactly for a zero interval or a configured weight of 0 |
| Aggregator.Aggregator.Route | crates/netmux-core/src/aggregator.rs:160-167 | routing computes the decision and the next state; the flow table stays the last-pick map of the history |
| Aggregator.Aggregator.Select | crates/netmux-core/src/aggregator.rs:169-176 | a pick is recorded under its key, and only a pick changes the state |
| Aggregator.Aggregator.RefreshCandidates | crates/netmux-core/src/aggregator.rs:80-114 | candidates are rebuilt from the physical interfaces, nothing else changes |
| Aggregator.Aggregator.Tick | crates/netmux-core/src/aggregator.rs:117-127 | the load update is overwritten by the refresh |
| Aggregator.Aggregator.Apply | crates/netmux-app/src/main.rs:369-396 | one setting of one interface changes, with the clamps |
| Aggregator.ActionKeepsWeights | crates/netmux-app/src/main.rs:388-394 | configured weights stay in 1..=100 and a valid configuration stays valid |
| Hosts.ActionExactly | crates/netmux-app/src/main.rs:369-396 | an action changes one setting of one interface, by exactly its step inside 1..=99 or 1..=100 and to the bound otherwise, and nothing else |
| Hosts.HugeValuesDrop | crates/netmux-app/src/main.rs:386-393 | a setting of 2^31 or more reads as negative and drops to 1 |
| Aggregator.RefreshedPoolIsExact | crates/netmux-core/src/policy.rs:148-152 | with clamped weights every refreshed pool is in the exact range of the float expression |
| Aggregator.RankedByKind | crates/netmux-core/src/aggregator.rs:88-100 | a refreshed candidate's priority is its kind's |
| Hosts.CandidatesExactly | crates/netmux-core/src/aggregator.rs:80-114 | every physical interface, and no other, has its candidate in order, with its health, settings and rates; an unconfigured one is enabled with weight 1 |
| Hosts.FailoverPrefersKinds | crates/netmux-core/src/aggregator.rs:88-93 | failover picks an Ethernet when one can serve, else a cellular, else a Wi-Fi, else another physical interface, the first listed among equals, and none exactly when none can |
| Aggregator.ConfiguredPriorityIgnored | crates/netmux-core/src/aggregator.rs:80-114 | configurations that differ in configured priorities only give the same candidates and the same pick |
| Aggregator.FlowTableIsLastPicks | crates/netmux-core/src/aggregator.rs:169-176 | over any run the flow table is the last-pick map of the routed history |
| Hosts.LastPicksExactly | crates/netmux-core/src/aggregator.rs:169-176 | that map holds for a key the pick of the last entry with the key |
| Aggregator.HashPinsRuns | crates/netmux-core/src/aggregator.rs:160-176 | while hash balancing and the offer stay, every packet goes where its key is pinned, over any interleaving of flows and loads |
| DataPlane.RunKeepsInv | crates/netmux-app/src/main.rs:405-520 | every step of every thread keeps the invariant of table, program counters and trace |
| DataPlane.NoUnsolicitedInjection | crates/netmux-app/src/main.rs:423-451 | in every interleaving each packet written to the TUN mirrors a flow registered earlier, and every session has its interface's address |
| DataPlane.SentPacketsAreSound | crates/netmux-app/src/main.rs:488-518 | every packet sent was registered earlier, its session is in the table, its interface has an open socket, it differs in flow only by that interface's source address, and a receiver's sums over its bytes come out |
| History.SessionsAreFirstRegistrations | crates/netmux-app/src/main.rs:498-501 | in every interleaving the table holds for each flow the session of its first registration in the trace, and nothing else |
| Threads.OthersKeepPc | crates/netmux-app/src/main.rs:405-455 | the steps of all other threads leave a capture thread's program counter alone |
| Threads.NextOwnStep | crates/netmux-app/src/main.rs:405-520 | a run in which a thread moves reaches that move through steps of other threads only |
| Delivery.SentHasFlow | crates/netmux-app/src/main.rs:498-510 | every packet sent in any run belongs to a flow and left from its interface's address |
| Delivery.ReplyMatchedExactly | crates/netmux-app/src/main.rs:435-441 | for any clients, in every reachable state: a captured reply to a sent packet is certain to match its flow's session if and only if the packet left from the address of the flow's first registration and no other client contests it, and certain to be dropped if and only if the address differs and nobody contests it |
| Delivery.MatchedReplyIsWritten | crates/netmux-app/src/main.rs:443-451 | in every reachable state the write after a match carries the client's address and port as destination |
| Delivery.ReplyDeliveredExactly | crates/netmux-app/src/main.rs:414-451 | any run that sent a packet, any continuation in which some thread completes an iteration over its reply, any steps of the others in between, uncontested: the reply is in the final trace, written to the TUN with the client's address and port, if and only if the packet left from its flow's first address; otherwise no thread ever writes it |
| Delivery.ReplyDelivered | crates/netmux-app/src/main.rs:405-520 | with one client and flows that keep their interface, the reply to every sent packet is matched and written to the TUN with the client's address and port, over all interleavings |
| Delivery.HashKeepsFlowsFixed | crates/netmux-app/src/main.rs:481-484 | hash balancing over an unchanged offer keeps every flow on one address in every interleaving |
| Delivery.HashRepliesDelivered | crates/netmux-app/src/main.rs:481-484 | scheduler and data plane together: one client, hash balancing and an unchanged offer deliver every reply |
| Scenarios.RoundTripRun | crates/netmux-app/src/main.rs:405-520 | for every IPv4 packet and every reply to it there is a run that forwards the packet and delivers the reply, uncontested |
| Scenarios.SwappedIsReply | crates/netmux-core/src/packet.rs:83-132 | a packet with equal ports, its addresses exchanged by the two rewrites, is its own reply |
| Scenarios.MovedFlowLosesReply | crates/netmux-app/src/main.rs:498-507 | for every IPv4 packet: forwarded over one interface and again over another, the second reply can only be dropped |
| Scenarios.ReplyReachesWrongClient | crates/netmux-app/src/main.rs:435-451 | for every two IPv4 packets that differ in client only there is a run that writes the reply to the first to the TUN for the second |
| Loops.BuildNet | crates/netmux-app/src/main.rs:230-274 | an interface gets a socket and its last listed address exactly when it is usable, has an address and its socket opens; it gets a capture thread exactly when its capture socket opens too |
| Loops.LastAddrExactly | crates/netmux-app/src/main.rs:231-237 | the address of a name is the last one listed for it |
| Loops.EgressOnce | crates/netmux-app/src/main.rs:469-518 | one egress iteration over the real engine, table and buffer computes the forwarding function |
| Loops.CaptureOnce | crates/netmux-app/src/main.rs:414-451 | one capture iteration finds an allowed session and rewrites the buffer in place for it, or leaves the buffer alone |
| Loops.ForwardedIsRun | crates/netmux-app/src/main.rs:469-518 | an undisturbed egress iteration is a run of the step machine with the same engine, log and emitted packet |
| Loops.CapturedIsRun | crates/netmux-app/src/main.rs:414-451 | an undisturbed capture iteration is a run of its thread's receive, lookup and write, with the same emitted packet |

## Left out

- The two loops are endless in the source; `EgressOnce` and `CaptureOnce` are one iteration, and arbitrarily many interleaved iterations are covered by the step machine on values.
- Socket, TUN, ioctl and sysfs calls: what they read and whether they succeed are arbitrary inputs of the steps; only the 65536-byte buffer limit is kept.
- UDP checksum placement: stated only as the exact condition under which the payload survives; validity of a UDP field at offset 6 is not claimed.
- Segment end: the layer-4 part runs to the end of the buffer as in the code; agreement with the IP total length field is not modelled.
- Loads are arbitrary finite reals; infinities, NaN and the rounding of tx + rx are not modelled.
- ActionApplied: does not model i32 overflow of value plus delta, because the interface only sends steps of one.
- KeyBytes: is the UTF-8 encoding for ASCII keys only, because every key of a parsed flow is ASCII (KeyIsAscii).
- Pool: holds the names of the slots rather than references to candidates, because selection returns only the name.
- TotalWeight: is unbounded, because the u64 sum of u32 weights cannot overflow below 2^32 candidates.
- Session expiry and per-session counters: the code never removes a session or updates the counters.
- The simulation traffic generator, injected demo candidates, per-candidate load display, statistics sampling and interface classification.
- The user interface, themes, logging, serialization and error texts.
