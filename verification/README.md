# XDP tutorial: frame ownership, parsing, rewriting and checksums

This project models the parts of the XDP tutorial where something can go wrong
between functions, and proves what they keep.

**AF_XDP** (`Rings`, `XskSystem`, `XskInvariant`, `XskSupply`, `XskReach`, `XskMarks`,
`XskAlive`, `XskBatch`, `XskMemory`, `XskSocket`, `XskEcho`).
A stack of free UMEM frames feeds the FILL ring; the kernel turns FILL entries
into RX entries; the program frees each received frame or moves it to TX, and the
kernel gives it back through COMPLETION. `XskSystem` is the protocol as a step
system: application steps in code order, kernel steps between any two of them,
cached and published ring indices kept apart, frames named by their chunk.
`XskInvariant` and `XskSupply` hold the theorems over all runs, `XskMarks` and
`XskAlive` say for every configuration whether FILL can get an invalid mark and
whether reception can starve; `XskReach` builds the reachable states they name, and
`XskBatch` says which addresses a batch and a completion give back.
`Rings` shows that the 32-bit rings stand for the queues the step system uses,
across any number of wraps. `XskSocket` is the socket as the program updates it in
place; every method extends a recorded run, so all theorems about runs hold of it,
and with `XskMemory` it follows the bytes of each packet from the look at RX to the
end of the batch. The number of frames, ring sizes, batch sizes and the lesson's
`if (false)` guard are parameters.

**Packets** (`Words`, `Checksum`, `Incremental`, `Packet`, `Parsing`, `Vlan`, `Echo`,
`Router`, `Ports`, `TailGrow`, `Failures`, `Layout`, `ProgramBytes`). Programs work in
place on a buffer with headroom and tailroom; each is proved equal to a function of the
old bytes, and the lemmas are about those functions. `Layout` and `ProgramBytes` state
what these functions are once more from outside, by offsets and numbers alone, for every
packet. Host byte order is a parameter everywhere. Checksums
are judged against the one's-complement sum of sections 1 and 2 of RFC 1071 over a
segment of any length, updates against Eqn. 3 in section 3 of RFC 1624, the ICMPv6
pseudo-header against section 2.3 of RFC 4443.

**Counters** (`Stats`, `StatsPoller`). In one step system CPUs count, others load maps
and change the pin, and the poller copies records word by word and opens whatever is
pinned. `Stats` proves what readings mean on every run; `StatsPoller` is the poller
with its fields, proved to be such a run. What a turn reads is whatever it has
opened; that all readings are of one map is proved from the ID test alone.

Assumed of code that cannot be seen: libxdp's `reserve`, `submit`, `peek` and
`release` (`Rings`); `bpf_xdp_adjust_head` moves the packet start when there is
headroom and an Ethernet header still fits, `bpf_xdp_adjust_tail` adds zero bytes
when there is tailroom (`Packet`); `bpf_csum_diff` is a 32-bit one's-complement sum
(`Incremental`); a lookup answers anything and `bpf_redirect` without flags answers
XDP_REDIRECT (`Router`); the kernel discards FILL entries that are no frame, delivers
packets of at least an Ethernet header inside one frame, and checks for room before
it produces (`XskSystem`). Clock values and lookup tables are parameters.

## What does not hold, and exactly when

- Echo: an ICMPv4 reply of nothing but zero bytes gets checksum 0 where 0xFFFF is due (`Echo.ReplyIcmp4Ok`; a valid ping that gets one: `Failures.EchoFails`).
- Port decrement: on a little-endian host the checksum breaks when the second wire byte of the field is 0xFF, and on every host when the port was 0 (`Ports.PortDownOk`; two valid datagrams: `Failures.PortDownFails`).
- Port increment on egress: on a little-endian host every checksum breaks unless port 65535 wraps over a zero field; on a big-endian one when port 65535 wraps over a field that is not zero, or another port moves over a zero field (`Ports.PortUpOk`; a valid datagram: `Failures.PortUpFails`).
- UDP without a checksum leaves both programs with one nobody computed (`Ports.NoChecksumIsLost`).
- Refill: beyond the bound on frames elsewhere a refill writes one invalid mark into FILL for every slot the stack cannot cover (`XskMarks.RefillSubmits`). This can happen for exactly the configurations whose FILL ring has two slots or more and RX one, the repository's included, as soon as the kernel holds on to enough frames (`XskMarks.MarkReachableIff`, `XskSocket.CodeRunsOut`).
- Reception: it can starve for good, no frame being in FILL, with the receive side or in RX, exactly if FILL has no slots, or has all frames and one batch can take them all, or the echo code is on and RX and TX have a slot (`XskAlive.StarvedIff`). The last is because only a received batch makes the program collect sent frames. As shipped the program cannot starve; with the lesson's code on it can (`XskSocket.CodeStarvesIff`).
- Tail stamp: when the IP length, cut to its low 12 bits, ends behind the frame, the run aborts with the packet grown. When it ends inside the frame the stamp overwrites frame bytes, and the frame survives every clock value exactly if the bytes it leaves behind it are none or begin the magic already (`TailGrow.FrameSurvivesIff`). So a frame padded behind its IP length is damaged (`Failures.StampFails`), and a frame that ends where its IP length says gets the stamp as its tail exactly when that length is below 4096 (`TailGrow.UnpaddedIsStampedIff`). On a big-endian host the magic reads "ST" (`TailGrow.MagicOnWire`).
- `vlan_tag_pop` is documented to return the VLAN ID; it returns the whole TCI (`Vlan.VlanTagPop`), which is the ID exactly when it is below 0x1000 (`Vlan.PopReturnsIdIff`). The parsing helpers are documented to return host byte order; `parse_ethhdr` returns the type as loaded (`Parsing.ParseEthhdrVlan`).
- `parse_udphdr` has already moved the cursor when it refuses a length below 8 (`Parsing.ParseUdphdr`).

## Model

| member | source | states |
|---|---|---|
| Rings.ProdFree | advanced03-AF_XDP/af_xdp_user.c:73-77 | the wrapped free count never exceeds the free slots there are, and equals them right after the consumer index is read, whatever has wrapped |
| Rings.ProdNbFree | advanced03-AF_XDP/af_xdp_user.c:355-357 | the cached count decides whether the index is refreshed; the answer is the queue's count, not the smaller of count and request |
| Rings.ProdReserve | advanced03-AF_XDP/af_xdp_user.c:361-367 | reserving gives all slots asked for or none, and hands out the index behind what is already reserved |
| Rings.ProdFill | advanced03-AF_XDP/af_xdp_user.c:369-371 | writing the slot of the k-th reserved index sets that entry and disturbs no other, masked indices included |
| Rings.ProdSubmit | advanced03-AF_XDP/af_xdp_user.c:373 | submitting moves reserved entries, in order, to what the kernel sees |
| Rings.ProdTake | advanced03-AF_XDP/af_xdp_user.c:359-374 | the kernel takes entries first in, first out, and the cached count then lags by one |
| Rings.ConsPeek | advanced03-AF_XDP/af_xdp_user.c:351-353 | peek hands out the oldest entries not handed out yet, looking at the producer index only when it knows of none |
| Rings.ConsRelease | advanced03-AF_XDP/af_xdp_user.c:387 | release drops exactly the oldest entries |
| Rings.ConsPut | advanced03-AF_XDP/af_xdp_user.c:245-255 | what the kernel publishes is appended and overwrites no entry still unreleased |
| XskInvariant.InitInv | advanced03-AF_XDP/af_xdp_user.c:206-225 | after setup every frame is on the stack or in FILL, once |
| XskInvariant.AppKeepsInv | advanced03-AF_XDP/af_xdp_user.c:234-391 | every application step keeps all counts, the outstanding count and the ring states |
| XskInvariant.KernelKeepsInv | advanced03-AF_XDP/af_xdp_user.c:234-391 | so does every kernel step, wherever it comes |
| XskInvariant.RunInv | advanced03-AF_XDP/af_xdp_user.c:394-412 | the invariant holds at the end of every run |
| XskInvariant.EveryFrameInOnePlace | advanced03-AF_XDP/af_xdp_user.c:147-163 | in every reachable state each of the n frames is in exactly one of stack, FILL, kernel receive side, RX, TX, kernel transmit side and COMPLETION |
| XskInvariant.StackHasNoDuplicates | advanced03-AF_XDP/af_xdp_user.c:147-163 | the free stack never holds a frame twice, nor a foreign one |
| XskInvariant.NeverFailsNeverRetries | advanced03-AF_XDP/af_xdp_user.c:158-163 | the assert of the free function never fires and the retry loop behind reserve is never entered |
| XskInvariant.RoomToFree | advanced03-AF_XDP/af_xdp_user.c:158-163 | whenever a frame is about to be freed the stack has room |
| XskInvariant.OutstandingIsExact | advanced03-AF_XDP/af_xdp_user.c:234-259 | the outstanding count is the number of frames in TX, with the kernel and in COMPLETION; the early return leaves no completed frame and the clamp never acts |
| XskInvariant.PacketInUmem | advanced03-AF_XDP/af_xdp_user.c:279-282 | a packet in hand lies inside the UMEM |
| XskSupply.ReceiveNeverStarves | advanced03-AF_XDP/af_xdp_user.c:345-391 | on runs where frames elsewhere stay within n - q whenever a refill is sized, at least q buffers are always in FILL, on the kernel receive side or in RX |
| XskSupply.FillHoldsFramesOnly | advanced03-AF_XDP/af_xdp_user.c:355-374 | on those runs FILL never holds an invalid mark |
| XskSupply.RefillExactIff | advanced03-AF_XDP/af_xdp_user.c:355-374 | a refill has a frame for every slot exactly when frames elsewhere stay within n - q, loosened by how far the cached index lags |
| XskSupply.RefillFills | advanced03-AF_XDP/af_xdp_user.c:355-357 | within the bound a stale index hides no slot: the refill fills the ring |
| XskReach.RunPaced | advanced03-AF_XDP/af_xdp_user.c:351-387 | a batch in hand is never empty nor over the batch size, and outside a reservation no FILL slot is known to be free |
| XskMarks.StockIsExact | advanced03-AF_XDP/af_xdp_user.c:355-357 | no refill is sized by a stale index: none from an empty stack, else all slots that are free |
| XskMarks.RefillSubmits | advanced03-AF_XDP/af_xdp_user.c:355-374 | on every run a refill submits the stack it found from its top, then one invalid mark for every slot beyond; marks follow exactly beyond the bound |
| XskMarks.MarkReachableIff | advanced03-AF_XDP/af_xdp_user.c:147-156 | a configuration can put an invalid mark into FILL, and can size a refill beyond the bound, exactly if FILL has two slots or more and RX one |
| XskAlive.StaysAlive | advanced03-AF_XDP/af_xdp_user.c:345-392 | when no packet can be echoed and no batch takes all frames, whatever the kernel keeps: some frame is outside the stack, a refill finds a frame to begin with, a full FILL ring is not all marks |
| XskAlive.StarvedIff | advanced03-AF_XDP/af_xdp_user.c:345-392 | exactly which configurations have a run that leaves reception without any frame: FILL without slots, FILL with all frames and a batch that takes them, or packets that can be echoed |
| XskAlive.StarvedForever | advanced03-AF_XDP/af_xdp_user.c:351-353 | a run that has starved stays starved on every continuation |
| XskBatch.InitByNumbers | advanced03-AF_XDP/af_xdp_user.c:206-225 | frame i starts at 4096 * i, and FILL holds the highest frames first |
| XskBatch.LookHandsOut | advanced03-AF_XDP/af_xdp_user.c:351-353 | a look hands out the oldest entries it knows of, or all there are if it knew none, at most a batch |
| XskBatch.CompletionHandsOut | advanced03-AF_XDP/af_xdp_user.c:245-247 | so does a look at COMPLETION |
| XskBatch.BatchComesBack | advanced03-AF_XDP/af_xdp_user.c:376-385 | on every run, a batch of which nothing is sent leaves its addresses on the stack in the order of RX |
| XskBatch.CompletedComeBack | advanced03-AF_XDP/af_xdp_user.c:249-253 | on every run, completed addresses go on the stack in the order of COMPLETION |
| XskSocket.CodeIsValid | advanced03-AF_XDP/af_xdp_user.c:33-36 | the repository's constants, number by number, meet what the model asks |
| XskSocket.CodeRunsOut | advanced03-AF_XDP/af_xdp_user.c:33-36 | with the repository's constants a refill beyond the bound and an invalid mark in FILL are reachable |
| XskSocket.CodeStarvesIff | advanced03-AF_XDP/af_xdp_user.c:33-36 | with the repository's constants reception can starve exactly when the echo code is switched on |
| XskSocket.XskSocketInfo.Configure | advanced03-AF_XDP/af_xdp_user.c:170-232 | a null pointer exactly when memory, creating or attaching the socket fails, else a set-up socket |
| XskSocket.XskSocketInfo.constructor | advanced03-AF_XDP/af_xdp_user.c:170-227 | setup in place reaches the initial state of the step system, from any start of the indices |
| XskSocket.XskSocketInfo.StuffFill | advanced03-AF_XDP/af_xdp_user.c:212-225 | the FILL ring gets the top q frames of the stack, highest first |
| XskSocket.XskSocketInfo.AllocUmemFrame | advanced03-AF_XDP/af_xdp_user.c:147-156 | pops the top of the stack, or answers the invalid mark from an empty one |
| XskSocket.XskSocketInfo.FreeUmemFrame | advanced03-AF_XDP/af_xdp_user.c:158-163 | pushes the frame; the assert is a precondition proved at every call |
| XskMemory.DeliverWrites | advanced03-AF_XDP/af_xdp_user.c:279-282 | a delivery writes only a frame that is lent, and lends none |
| XskSocket.XskSocketInfo.Kernel | advanced03-AF_XDP/af_xdp_user.c:242 | any kernel steps leave the program's side of every ring alone and write only frames lent to the kernel |
| XskSocket.XskSocketInfo.CompleteTx | advanced03-AF_XDP/af_xdp_user.c:234-259 | is a run from the check of the count to rest, and lends no frame |
| XskSocket.XskSocketInfo.ReserveStock | advanced03-AF_XDP/af_xdp_user.c:361-367 | the first reserve returns what was counted, kernel steps in between included |
| XskSocket.XskSocketInfo.Refill | advanced03-AF_XDP/af_xdp_user.c:355-374 | is a run from the count of free slots to the submitted refill; the waiting batch keeps its bytes |
| XskSocket.XskSocketInfo.ProcessPacket | advanced03-AF_XDP/af_xdp_user.c:279-343 | true exactly when echoing is on, the packet is a ping and a TX slot is free; then the frame holds the reply, its descriptor is sent and counted, and no frame but this one and lent ones is touched |
| XskMemory.HeldNotLent | advanced03-AF_XDP/af_xdp_user.c:377-385 | a received packet not yet dealt with is inside the UMEM, in a frame the kernel may not write |
| XskMemory.HeldApart | advanced03-AF_XDP/af_xdp_user.c:377-385 | each packet of a batch is in a frame of its own |
| XskMemory.HandledOne | advanced03-AF_XDP/af_xdp_user.c:376-385 | dealing with one packet disturbs neither replies already in place nor packets still to come |
| XskMemory.AllAnswered | advanced03-AF_XDP/af_xdp_user.c:322-343 | what a batch sends is all its pings when there are TX slots for them, and else at least as many as there were slots |
| XskSocket.XskSocketInfo.ProcessAll | advanced03-AF_XDP/af_xdp_user.c:376-385 | sends pings of the batch in order and none twice, leaves one out only when TX was full, each frame holding the reply to the bytes that arrived in it; nothing without the echo code |
| XskSocket.XskSocketInfo.HandleReceivePackets | advanced03-AF_XDP/af_xdp_user.c:345-392 | is a run from a look at RX back to rest, which hands out the oldest packets: all known of, or all there are when none was, up to a batch; what it sends is exactly the pings of the batch in order when TX has slots for them, a subsequence of at least as many as there were slots otherwise, and nothing with the echo code off; each frame sent holds the reply to the bytes at the look; each statistics field grows by the packets or bytes of the batch or the replies, modulo 2^64 |
| XskSocket.XskSocketInfo.RxAndProcess | advanced03-AF_XDP/af_xdp_user.c:394-412 | any number of turns is one run, and nothing sent is forgotten |
| XskSocket.XskSocketInfo.AliveNow | advanced03-AF_XDP/af_xdp_user.c:58-71 | some frame is outside the stack, of the fields as they are |
| XskSocket.XskSocketInfo.OnePlaceNow | advanced03-AF_XDP/af_xdp_user.c:58-71 | conservation, of the fields as they are |
| XskSocket.XskSocketInfo.SuppliedNow | advanced03-AF_XDP/af_xdp_user.c:355-374 | the supply, of the fields as they are |
| XskEcho.RewritePing | advanced03-AF_XDP/af_xdp_user.c:302-320 | answers whether the packet is a ping and then leaves the reply in its place, all other memory untouched |
| ProgramBytes.PingByBytes | advanced03-AF_XDP/af_xdp_user.c:302-306 | a packet is answered exactly if it dissects at depth 0 to ICMPv6 at byte 54, has 62 bytes or more, and type 128 |
| ProgramBytes.PongByBytes | advanced03-AF_XDP/af_xdp_user.c:308-320 | the reply part by part: both pairs of addresses exchanged, type 129, the rest but the checksum as it came |
| XskEcho.PongByte | advanced03-AF_XDP/af_xdp_user.c:308-320 | every byte of the reply: addresses exchanged, type and checksum new, the rest the request's |
| XskEcho.PongOk | advanced03-AF_XDP/af_xdp_user.c:316-320 | pseudo-header and message of the reply are accepted exactly when the request's were |
| Checksum.OcSumIsCanon | packet-solutions/xdp_prog_kern_02.c:54-59 | the end-around-carry sum is the plain sum modulo 0xFFFF, zero only for all zeros |
| Checksum.ByteOrderIndependent | packet-solutions/xdp_prog_kern_02.c:54-59 | validity does not depend on the byte order of the summing host |
| Checksum.OkIff | packet-solutions/xdp_prog_kern_02.c:54-59 | a segment is accepted when its sum in either byte order is a positive multiple of 0xFFFF |
| Checksum.OkByNumbers | packet-solutions/xdp_prog_kern_02.c:54-59 | the sum in numbers: big-endian words added, an odd last byte as a high one, accepted as a positive multiple of 0xFFFF |
| Checksum.ExactIff | packet-solutions/xdp_prog_kern_03.c:126-132 | a field is the recomputed one exactly when the segment is accepted and the field is all ones only over zeros |
| Incremental.Csum16AddIsOcAdd | advanced03-AF_XDP/af_xdp_user.c:261-267 | the wrapped add with its carry test is one's-complement addition |
| Incremental.CsumReplace2Exact | advanced03-AF_XDP/af_xdp_user.c:261-277 | over a segment of any length the new field is bit for bit the recomputed one exactly when the new data is not all zero |
| Incremental.FoldIsComplement | packet-solutions/xdp_prog_kern_03.c:34-40 | two folds suffice for every 32-bit input |
| Incremental.DiffReplaceExact | packet-solutions/xdp_prog_kern_03.c:42-58 | diffing a rewritten header yields an accepted, recomputed field exactly when the old sum was a multiple of 0xFFFF and the new data is not all zero |
| Incremental.FormsAgreeIff | packet-solutions/xdp_prog_kern_03.c:126-145 | the 16-bit and the 32-bit form give the same field except for one triple of values |
| Packet.XdpMd.Write | common/rewrite_helpers.h:59-61 | a copy into the packet changes exactly its bytes |
| Packet.XdpMd.AdjustHead | common/rewrite_helpers.h:47-49 | assumed helper: moves the start or refuses |
| Packet.XdpMd.GrowTail | experiment01-tailgrow/xdp_prog_kern.c:34-39 | assumed helper: appends zero bytes or refuses |
| Parsing.ProtoIsVlanOnWire | common/parsing_helpers.h:68-72 | the test on a loaded type is the test on the wire, on every host |
| Parsing.SkipTagsMeaning | common/parsing_helpers.h:104-121 | any depth D passes the first min(D, complete tags) tags and collects exactly their 12-bit IDs |
| Parsing.DepthsAgree | packet-solutions/xdp_vlan01_kern.c:62-78 | two depths agree exactly when they pass the same number of tags |
| Parsing.SkipTagsStableIff | common/parsing_helpers.h:104-121 | appending bytes changes the result exactly when they complete a truncated tag |
| Parsing.ParseEthhdrVlan | common/parsing_helpers.h:79-122 | -1 or the type behind the tags, the cursor there, the IDs in the collector if there is one and nothing else in it |
| Parsing.WalkTags | common/parsing_helpers.h:98-121 | the tag loop is the recursive definition |
| Parsing.ParseEthhdr | common/parsing_helpers.h:124-130 | the same without a collector |
| Parsing.ParseEthhdrVlan01 | packet-solutions/xdp_vlan01_kern.c:42-79 | the separate copy is the same definition at depth 8 |
| Parsing.ParseIphdr | common/parsing_helpers.h:151-174 | the protocol of a header complete with its options, or -1 and the cursor unmoved |
| Parsing.ParseIp6hdr | common/parsing_helpers.h:132-149 | likewise for the fixed IPv6 header |
| Parsing.ParseIcmphdrCommon | common/parsing_helpers.h:206-219 | likewise for the common ICMP header |
| Parsing.ParseUdphdr | common/parsing_helpers.h:224-242 | the payload length, or -1 for a short packet or a length below 8 |
| Parsing.ParseTcphdr | common/parsing_helpers.h:247-270 | the header length with options, or -1 |
| Parsing.ParseHeaders | packet-solutions/xdp_prog_kern_03.c:81-93 | Ethernet and network layer together are the dissected frame |
| Parsing.ChainInBounds | common/parsing_helpers.h:79-270 | each layer starts where the last ended and ends inside the packet |
| Parsing.ChainStable | common/parsing_helpers.h:79-270 | when every layer parses, appended bytes change no result |
| Layout.WordBytes | common/parsing_helpers.h:114-115 | words on the wire are big-endian; a host loads, stores and swaps them in its own order |
| Layout.TagsByBytes | common/parsing_helpers.h:98-121 | types 0x8100 and 0x88A8 are passed as tags, at most two, and the low 12 bits of each TCI collected |
| Layout.DissectByBytes | common/parsing_helpers.h:79-174 | which network header every packet has, by bytes: tags, type 0x0800 with its length nibble, type 0x86DD with its 40 bytes |
| Layout.BuiltIp4 | common/parsing_helpers.h:151-174 | an IPv4 frame built with any number of option words, up to two tags and any payload dissects to that payload; cut in the header or with a nibble below five it does not |
| Layout.BuiltIp6 | common/parsing_helpers.h:132-149 | likewise IPv6, whose header has 40 bytes |
| Layout.BuiltTcp | common/parsing_helpers.h:247-270 | a TCP header built with any number of option words is found with them; cut or with an offset below five it is refused |
| Layout.BuiltUdp | common/parsing_helpers.h:224-242 | a UDP header is 8 bytes, and its length field minus 8 the answer, if not below |
| Layout.BuiltIcmp | common/parsing_helpers.h:206-219 | the common ICMP header is 4 bytes with the type in front |
| Layout.TransportByNumber | packet-solutions/xdp_prog_kern_02.c:48-78 | protocol 17 is UDP, 6 TCP, 1 ICMP behind IPv4 and 58 ICMP behind IPv6 |
| Vlan.VlanTagPop | common/rewrite_helpers.h:22-64 | removes exactly the outermost complete tag and returns its TCI, or changes nothing |
| Vlan.VlanTagPush | common/rewrite_helpers.h:69-108 | inserts exactly one 802.1Q tag, or changes nothing without headroom |
| Vlan.PushLayout | common/rewrite_helpers.h:93-106 | the overlapping copies leave the payload undisturbed |
| Vlan.PopUndoesPush | common/rewrite_helpers.h:22-108 | popping a pushed tag returns its TCI and every byte |
| Vlan.PushUndoesPop | common/rewrite_helpers.h:22-108 | pushing a popped tag restores the frame exactly when its type was 802.1Q |
| Vlan.PushKeepsMeaning | common/rewrite_helpers.h:69-108 | parsing after a push finds the same type and bytes, the new ID first, exactly when the depth had room |
| Vlan.XdpVlanSwap | packet-solutions/xdp_prog_kern_02.c:92-113 | one run is one step on headroom and bytes |
| ProgramBytes.SwapByBytes | packet-solutions/xdp_prog_kern_02.c:92-113 | of every frame and headroom: four bytes at offset 12 removed, or 81 00 00 01 put in there, or nothing |
| ProgramBytes.TaggedBytes | common/rewrite_helpers.h:93-106 | a pushed tag is type and TCI at offset 12, high bytes first |
| Vlan.RunsStrip | packet-solutions/xdp_prog_kern_02.c:92-113 | the first k runs strip one of k tags each |
| Vlan.RunsFromK | packet-solutions/xdp_prog_kern_02.c:92-113 | after k runs the frame is a fixed point or alternates with period two |
| Vlan.RunsKeepSpan | packet-solutions/xdp_prog_kern_02.c:92-113 | headroom plus length is constant |
| Echo.SwapSrcDst | common/rewrite_helpers.h:110-142 | source and destination change places and nothing else moves |
| Echo.XdpIcmpEcho | packet-solutions/xdp_prog_kern_03.c:61-151 | XDP_TX with the reply exactly for echo requests, else the packet untouched |
| Echo.PatchIcmp | packet-solutions/xdp_prog_kern_03.c:119-124 | type and checksum are replaced in place, nothing else |
| Echo.ReplyBytes | packet-solutions/xdp_prog_kern_03.c:101-124 | every byte of the reply outside the checksum |
| ProgramBytes.RequestByBytes | packet-solutions/xdp_prog_kern_03.c:81-118 | exactly protocol 1 with type 8 behind IPv4 and protocol 58 with type 128 behind IPv6 are answered; any other packet stays |
| ProgramBytes.Echo4ByBytes | packet-solutions/xdp_prog_kern_03.c:101-124 | the IPv4 reply part by part: bytes 12 to 16 and 16 to 20 of the header and both Ethernet addresses exchanged, type 0, the rest but the checksum as it came |
| ProgramBytes.Echo6ByBytes | packet-solutions/xdp_prog_kern_03.c:106-124 | the IPv6 reply part by part: bytes 8 to 24 and 24 to 40 exchanged, type 129 |
| ProgramBytes.PseudoBytes | packet-solutions/xdp_prog_kern_03.c:106-124 | what an ICMPv6 checksum covers in front of the message, byte by byte |
| Echo.ReplyIp4HeaderOk | packet-solutions/xdp_prog_kern_03.c:102-105 | the IPv4 header of any length stays as valid as it was |
| Echo.ReplyIcmp4Ok | packet-solutions/xdp_prog_kern_03.c:119-124 | the ICMP checksum is accepted exactly when the request's was and the reply is not all zero |
| Failures.EchoFails | packet-solutions/xdp_prog_kern_03.c:119-124 | a valid ping that is answered, on every host, with a reply nobody accepts |
| Echo.ReplyIcmp6Ok | packet-solutions/xdp_prog_kern_03.c:106-124 | so is the ICMPv6 checksum over its pseudo-header, without exception |
| Router.IpDecreaseTtl | packet-solutions/xdp_prog_kern_03.c:222-228 | TTL and checksum bytes are the only ones written |
| Router.DecreaseTtlValue | packet-solutions/xdp_prog_kern_03.c:222-228 | the folded add undoes the TTL change modulo 0xFFFF in either byte order and never gives all ones |
| Router.XdpRouter | packet-solutions/xdp_prog_kern_03.c:231-326 | action and bytes for any lookup; bytes change only when forwarded |
| Router.ForwardedBytes | packet-solutions/xdp_prog_kern_03.c:300-309 | every byte outside the checksum: the looked-up addresses, the life less one, the rest unchanged |
| ProgramBytes.RouterWithoutLookup | packet-solutions/xdp_prog_kern_03.c:245-292 | short and truncated frames are dropped (1), others that are no IP or at the end of their life passed (2), unchanged |
| ProgramBytes.Router4ByBytes | packet-solutions/xdp_prog_kern_03.c:253-318 | an IPv4 frame: what the lookup is asked, byte by byte, the action for each answer, and the frame that leaves with byte 22 less one and the folded checksum in 24 and 25 |
| ProgramBytes.Router6ByBytes | packet-solutions/xdp_prog_kern_03.c:270-318 | an IPv6 frame likewise, with byte 21 less one and no other byte behind the addresses changed |
| Router.HopHeaderOk | packet-solutions/xdp_prog_kern_03.c:222-228 | a hop neither breaks nor repairs a header checksum, and an accepted header leaves with the recomputed one |
| Router.ChainLife | packet-solutions/xdp_prog_kern_03.c:245-322 | over any chain the life falls by one per hop, is never forwarded as 0, and allows at most t - 1 hops |
| Router.ChainChecksum | packet-solutions/xdp_prog_kern_03.c:245-322 | over any chain headers of any length keep exact checksums in both byte orders |
| Ports.PortDownOk | packet-solutions/xdp_prog_kern_02.c:68-80 | exactly which accepted segments stay accepted, per byte order; the field is never left zero |
| Ports.PortUpOk | packet-solutions/tc_reply_kern_02.c:46-57 | the same for the egress increment |
| Ports.MovedBytes | packet-solutions/xdp_prog_kern_02.c:68-71 | the port moves by exactly one and, the checksum aside, no other byte changes |
| ProgramBytes.FieldByBytes | packet-solutions/xdp_prog_kern_02.c:48-78 | the checksum field is 6 bytes into a UDP header and 16 into a TCP header that parses |
| ProgramBytes.StepBytes | packet-solutions/xdp_prog_kern_02.c:69-71 | the stepped field, as each byte order computes it, with the second addition when the first gives zero |
| ProgramBytes.PatchPortsByBytes | packet-solutions/xdp_prog_kern_02.c:21-85 | the second word of the segment falls by one, the field is stepped, every other byte of every packet stays |
| ProgramBytes.FixPortByBytes | packet-solutions/tc_reply_kern_02.c:14-62 | the first word of the segment rises by one, the field is stepped, every other byte of every packet stays |
| Failures.PortDownFails | packet-solutions/xdp_prog_kern_02.c:68-80 | a valid datagram broken on little-endian hosts only, and one to port 0 broken on all |
| Failures.PortUpFails | packet-solutions/tc_reply_kern_02.c:46-57 | a valid datagram broken on little-endian hosts only |
| Ports.NoChecksumIsLost | packet-solutions/xdp_prog_kern_02.c:68-71 | a UDP packet with a zero field leaves the ingress program with 1 and the egress program with 0xFFFF in it, and a receiver then accepts it exactly when sums nobody ever set happen to fit |
| Ports.PatchPortsOk | packet-solutions/xdp_prog_kern_02.c:21-85 | the condition on a whole packet, the bytes before the segment untouched |
| Ports.FixPortOk | packet-solutions/tc_reply_kern_02.c:14-62 | likewise on egress |
| Ports.MovePort | packet-solutions/xdp_prog_kern_02.c:68-71 | the in-place updates of port and field are the segment step |
| Ports.XdpPatchPorts | packet-solutions/xdp_prog_kern_02.c:21-85 | action and bytes, malformed transport headers aborted |
| Ports.FixPortEgress | packet-solutions/tc_reply_kern_02.c:14-62 | always TC_ACT_OK, bytes as stated |
| TailGrow.GrowParse | experiment01-tailgrow/xdp_prog_kern.c:21-93 | action and bytes of the grown packet, every write inside it |
| ProgramBytes.StampByBytes | experiment01-tailgrow/xdp_prog_kern.c:41-90 | of every packet: whether it is aborted (0), passed (2) or stamped, where, and with which bytes on each host |
| TailGrow.GrownParsesAlike | experiment01-tailgrow/xdp_prog_kern.c:41-55 | growing does not change how the packet parses |
| TailGrow.StampInside | experiment01-tailgrow/xdp_prog_kern.c:57-90 | the stamp lies inside the grown packet or nothing is written |
| TailGrow.StampIsTail | experiment01-tailgrow/xdp_prog_kern.c:80-90 | when the cut length ends at the frame's end all bytes are kept and the stamp is the new tail |
| TailGrow.FrameSurvivesIff | experiment01-tailgrow/xdp_prog_kern.c:78-90 | exactly when a stamping run keeps the frame |
| TailGrow.UnpaddedIsStampedIff | experiment01-tailgrow/xdp_prog_kern.c:57-90 | a frame that ends where its IP length says keeps all bytes and gets the stamp as its tail exactly when the length is below 4096 |
| Failures.StampFails | experiment01-tailgrow/xdp_prog_kern.c:78-90 | a 60-byte padded ping that the stamp damages on every host at every time |
| Stats.RunInv | basic-solutions/xdp_stats.c:194-226 | on every run, whatever is pinned when, all readings are of the poller's map, each word copied lies between the counts at both ends of its reading, and readings follow one another |
| Stats.CopyIsBetween | basic-solutions/xdp_stats.c:133-155 | for every interleaving the sum of one looked-up record lies between the true totals of its action when that lookup began and when it ended |
| Stats.ReportIsBetween | basic-solutions/xdp_stats.c:133-155 | the report made of one lookup is such a total modulo 2^64 |
| Stats.RecordIsLookedUp | basic-solutions/xdp_stats.c:183-192 | every record of every finished reading comes from a lookup of its own within the run |
| Stats.ReadingIsBetween | basic-solutions/xdp_stats.c:183-192 | the copied sums lie between the true totals at both ends of the whole reading |
| Stats.ReadingsRise | basic-solutions/xdp_stats.c:183-192 | readings rise though each is a torn copy: reading k is at most the total when it ended, that at most the total when the next began |
| Stats.PrintedIsGrowth | basic-solutions/xdp_stats.c:102-113 | every printed difference is the growth between two readings modulo 2^64, and the growth itself, not negative, while the true total stays below 2^64 |
| Stats.PrintedTelescopes | basic-solutions/xdp_stats.c:94-118 | while true totals stay below 2^64 the printed differences add up to last reading minus first |
| Stats.RecordAction | common/xdp_stats_kern.h:25-43 | counts one packet and its bytes for the action, or aborts when the action is out of range or has no record |
| Stats.SumByCpu | basic-solutions/xdp_stats.c:148-154 | packets and bytes are summed CPU by CPU, reported and subtracted modulo 2^64 |
| Stats.RecordedIsTwoSteps | common/xdp_stats_kern.h:38-40 | recording is two counting steps of the system and raises the totals by one packet and its bytes |
| StatsPoller.SumPercpu | basic-solutions/xdp_stats.c:148-154 | the loop sums each field over all CPUs modulo 2^64 |
| StatsPoller.Poller.MapCollect | basic-solutions/xdp_stats.c:157-181 | both totals are of the action, modulo 2^64, at some point between call and return, and are those of the recorded lookup |
| StatsPoller.Poller.StatsCollect | basic-solutions/xdp_stats.c:183-192 | the record of all actions is that of one reading of the open map, whatever counts in between |
| StatsPoller.Poller.OpenBpfMapFile | basic-solutions/xdp_stats.c:210-212 | opens whatever is pinned, or fails without a pin |
| StatsPoller.Poller.CheckId | basic-solutions/xdp_stats.c:213-217 | goes on with the opened map exactly if it is the poller's, else stops to restart |
| StatsPoller.Poller.Reopen | basic-solutions/xdp_stats.c:210-217 | after reopening, with the pin changing hands before and after, what is open is the poller's map, or the poll has ended |
| StatsPoller.Poller.StatsPoll | basic-solutions/xdp_stats.c:194-226 | all readings are of the poller's map, by the ID test, and line k compares readings k and k + 1, under any counting and any replacement of the pinned map |
| StatsPoller.Poller.LineIsGrowth | basic-solutions/xdp_stats.c:102-113 | both differences of a printed line are true growths, modulo 2^64 |

## Left out

- XskSocket.XskSocketInfo.ReserveStock: the retry loop behind it is a state of `XskSystem` proved unreachable, and has no code in the method.
- StatsPoller.Poller.StatsPoll: a failed map lookup, which leaves the record unset, is not modelled, nor the array that is not per CPU; map IDs are taken as never reused.
- XskSocket.XskSocketInfo.Configure: what allocating, creating and attaching the socket return are parameters.
- The recorded action of each XDP program goes through `Stats.RecordAction`; the programs here return the action they record.
- `parse_icmphdr` and `parse_icmp6hdr`: the same fixed-size shape as the common ICMP header.
- `xdp_redirect_func` and `xdp_redirect_map_func`: one address copy each.
- Ring indices are masked by a remainder, which is the mask for the power-of-two sizes libxdp uses; memory ordering of the shared indices is not modelled.
- Wake-ups, polling, threads, signals and clocks of the AF_XDP program: only their effect as points where the kernel may step.
- Program loading, attaching, pinning, command lines, printing and rates.
- The verifier demonstrations, the tracing lessons and the unfinished assignment files.
