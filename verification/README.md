# Verified model of the tour and ARP programs

Two programs run on every host of a small network. The ARP daemon resolves IP addresses to hardware
addresses for local clients, with a cache that is a doubly linked list and a variant of RFC 826 on the
wire. The tour program carries a list of hosts in a source-routed IP packet, joins every visited host to
a multicast group, and makes each host ping the host it got the packet from. This project models both,
and the Internet checksum of the pings, and proves what they do over all inputs, states and runs.

`dafny verify dfyconfig.toml` checks everything.

## How the model is organised

| file | content |
|---|---|
| `Bytes.dfy` | bytes, 16-bit words, the C `short`, addresses |
| `Checksum.dfy`, `PingEcho.dfy` | `in_cksum` against one's-complement arithmetic, and its use on echo messages |
| `CacheModel.dfy`, `CacheList.dfy` | cache entries as values; the linked list of cache.c, pointer by pointer |
| `ArpWire.dfy` | the packet layout, `build_arp`, and reading a packet |
| `ArpSpec.dfy` | the daemon as a transition function on values |
| `ArpDaemon.dfy` | the daemon as an object that updates its list, buffers and descriptors in place, proved equal to `ArpSpec` |
| `ClientLog.dfy`, `ArpInvariant.dfy` | what every step keeps, and safety over whole runs |
| `ArpFrames.dfy` | what arrives and what is sent, by the bytes and their positions |
| `ArpSources.dfy` | where every entry and every answer comes from, over whole runs |
| `ArpFaults.dfy` | where the code leaves defined behaviour or loses a client, with exact conditions |
| `SweepPlan.dfy`, `SweepFault.dfy` | the exact effect of a whole sweep, when it faults and whom it forgets, read off the list it starts with |
| `ArpNetwork.dfy` | any number of hosts on a network that loses, repeats, reorders, pads and misdelivers frames |
| `TourModel.dfy`, `TourNode.dfy`, `TourRun.dfy` | the tour message with its bytes and the host as values, as objects, and the tour as a global transition system |
| `TourPackets.dfy` | what a host does with any packet, by its bytes, and which arguments are accepted |

The operating system enters as inputs: which descriptors are readable, what `recv` and `accept` return,
on how many devices a broadcast succeeds, what a name resolves to, which port `bind` chooses. What is done
to clients and what is sent is recorded in the state. A successful `accept` is taken to return a positive
descriptor that is not open; a successful `select` may report any set of readable descriptors.

The code as written has several places where it does not do what it means to do. The model keeps the code
and gives each its exact condition and an input that gets there. No input is excluded.

- `removeFromCache` does not clear the new head's back link (cache.c:65-66). The daemon's state has a flag
  `stale` for it, and a second removal at the head gives the result `UseAfterFree`. `SweepFaultsIff` reads
  off the list a sweep starts with whether the sweep does that: it counts which entries are dropped with
  which address, since the m-th drop with an address unlinks the m-th entry with it.
- Removal compares values, and all connected clients' entries have the same value (cache.c:64, arp.c:162).
  `SweepForgetsIff` says exactly which clients a sweep forgets, and `ForgottenForever` that they stay so.
- A failed `accept` is not checked (arp.c:157-168) and may add a listed node again, with the result
  `CyclicList`. `AcceptFindsNothing` says exactly when.
- The handlers copy as many bytes as a packet announces, and from a hardware address that is null for an
  unknown interface (arp.c:586-695). `FrameOkIff` says exactly which frames lead to `OutOfBounds` or `NullMac`.

`NextOkIff` puts these together: for every reachable daemon and every step, exactly when the step is
defined. `ArpSpec.Repair` switches the first two off. Every safety result is proved for all its values,
hence for the code as written, up to a fault; `RepairedOkIff` and `IntendedAccounting` say what the repairs
buy.

## Model

| member | source | states |
|---|---|---|
| `Checksum.InCksum` | ping.c:199-226 | the loop with a wrapping 32-bit accumulator, the odd byte and the two folds return `Cksum`, on hosts of either byte order |
| `Checksum.Fold` | ping.c:221-225 | the two fold steps and the complement, as executed, return the complement of the accumulator's one's-complement value |
| `Checksum.TwoFoldsSuffice` | ping.c:221-224 | on every 32-bit sum two folds leave exactly its one's-complement value |
| `Checksum.NoOverflow` | ping.c:205-213 | no message of up to 131074 bytes overflows the accumulator |
| `Checksum.OverflowBeyondBound` | ping.c:201-213 | the bound is exact: every greater length has a message that overflows and gets a wrong checksum |
| `Checksum.RightIffFits` | ping.c:199-226 | up to twice the bound the result is right exactly when the word sum fits 32 bits |
| `Checksum.CksumIsComplementOfOnesSum` | ping.c:199-226 | the result is the complement of the end-around-carry sum of the words, congruent to the word sum modulo 65535, and 0xFFFF only for an all-zero message |
| `Checksum.ByteOrderIndependent` | ping.c:205-225 | little- and big-endian hosts leave the same two checksum bytes for every message, odd lengths included |
| `Checksum.SwappedMessage` | ping.c:205-225 | on hosts of either byte order, swapping the bytes of every word of an even-length message swaps the result |
| `Checksum.OrderIndependent` | ping.c:210-213 | any permutation of the words leaves the result unchanged |
| `Checksum.ChecksumRoundTrip` | ping.c:64-66 | storing the checksum in the zeroed field makes the receiver's check succeed, whatever the two byte orders |
| `Checksum.AcceptedIff` | ping.c:180 | the check accepts exactly the messages with a non-zero word sum divisible by 65535 |
| `Checksum.SingleWordChange` | ping.c:180 | replacing one word of an accepted message is noticed, with the exact exceptions |
| `PingEcho.Refresh` | ping.c:59-66 | each round sets the sequence number and checksum in place so that the message is accepted, and changes no other byte |
| `PingEcho.EchoReplyAccepted` | ping.c:167-181 | the echo of a request with the program's identifier passes all tests of the receiving loop |
| `PingEcho.AcceptsIff` | ping.c:174-180 | exactly the long enough echo replies with identifier bytes DE AC whose words add up to a multiple of 65535 are accepted |
| `PingEcho.PacketWordChange` | ping.c:174-180 | a replaced word of an accepted packet is noticed exactly unless type and identifier stay and the word is the same or 0x0000 and 0xFFFF are exchanged |
| `CacheModel.SameValueIsNotSymmetric` | cache.c:22-36 | `isSameCache` is not symmetric |
| `CacheModel.SameValueSymmetricIff` | cache.c:30-32 | two entries are the same when interface, address and as many hardware bytes as the second entry has agree; and exactly for which entries the order of the arguments matters |
| `CacheModel.UpdateChangesOnlyHatype` | cache.c:43-48 | an update can change nothing but the hardware type |
| `CacheModel.FindKey` | cache.c:133-147 | index of the first entry with the given address |
| `CacheModel.FindSocket` | cache.c:101-115 | index of the first entry with the given socket |
| `CacheModel.FindValue` | cache.c:85-99 | index of the first entry with the same value |
| `CacheList.Cache.AddToCache` | cache.c:3-20 | a new node is prepended and every link is right, the head's back link too; a listed node closes a cycle |
| `CacheList.Cache.RemoveFromCache` | cache.c:59-83 | unlinks exactly the first same node and keeps every link right except the new head's back link; a removal at a head with a dangling back link goes through freed memory |
| `CacheList.Cache.Unlink` | cache.c:65-74 | the pointer updates for one node |
| `CacheList.Cache.GetFromCache` | cache.c:85-99 | returns the first node with the same value, or null |
| `CacheList.Cache.GetCacheBySocket` | cache.c:101-115 | returns the first node with the socket, or null |
| `CacheList.Cache.GetCacheByIpAddr` | cache.c:133-147 | returns the first node with the address, or null |
| `CacheList.Cache.UpdateCache` | cache.c:38-57 | only the hardware type of the first same entry changes |
| `CacheList.HeadRemovalThenAdd` | cache.c:3-20 | an addition after a head removal restores the full invariant |
| `CacheList.TwoHeadRemovals` | cache.c:65-74 | two head removals in a row always end in freed memory |
| `ArpWire.BuildArp` | arp.c:505-549 | refuses a small buffer and leaves it alone, else fills exactly the first bytes with the encoded packet, zeros for null arguments |
| `ArpWire.WireRoundTrip` | arp.c:400-406 | reading back a built packet, with any padding, returns every header field and all four addresses |
| `ArpWire.DecodeThenEncode` | arp.h:35-40 | a payload that is read as a packet starts with that packet's encoding: the four regions tile the data |
| `ArpWire.FitsBuffers` | arp.h:28-33 | packets within the limits fit both packet buffers |
| `ArpWire.ReplyIsValid` | arp.c:600-603 | the reply to a valid request of any lengths survives the wire unless it is empty, is valid, names the requester's hardware address and the owner's IP as sender, and carries the requested address and the owner's hardware address in the fields `handle_reply` reads |
| `ArpSpec.IsDestination` | arp.c:408-429 | the first device with the address, none exactly when there is none |
| `ArpSpec.MacByIfindex` | arp.c:697-708 | the hardware address of the first device with the index, none exactly when there is none |
| `ArpSpec.Victim` | cache.c:62-64 | removal by value unlinks an entry at or before the one handled, of the same value |
| `ArpDaemon.Arpd.MaxFd` | arp.c:431-443 | the maximum of the server descriptors and the unresolved entries' sockets |
| `ArpDaemon.Arpd.FindDestination` | arp.c:408-429 | the loop computes `IsDestination` |
| `ArpDaemon.Arpd.FindMac` | arp.c:697-708 | the loop computes `MacByIfindex` |
| `ArpDaemon.Arpd.Accept` | arp.c:157-172 | the accept step on the pointer list; a socket found at a listed node makes the list cyclic |
| `ArpDaemon.Arpd.HandleAreq` | arp.c:224-300 | the handler's effect on entry, descriptors, log and sent frames |
| `ArpDaemon.Arpd.SendRequests` | arp.c:276-298 | one built broadcast for each device until one fails; its bytes are those of `RequestOnTheWire` |
| `ArpDaemon.Arpd.Drop` | arp.c:131-138 | close and removal by value of an entry |
| `ArpDaemon.Arpd.SweepOne` | arp.c:116-146 | the saved successor is the right listed node after the removal |
| `ArpDaemon.Arpd.Sweep` | arp.c:115-147 | the sweep that removes while it iterates handles every node listed at its start exactly once, in order, and is the specified one, whose effect `SweepEffect` states; if it faults it has handled a prefix |
| `ArpDaemon.Arpd.HandleReq` | arp.c:586-649 | the handler on the pointer list takes the specified step, whose effect `OverheardRequest` and `RequestForUs` state; copies out of bounds are reported |
| `ArpDaemon.Arpd.HandleReply` | arp.c:651-695 | the loop over the entries completes exactly the specified ones, for every protocol length that fits the key |
| `ArpDaemon.Arpd.ReceiveFrame` | arp.c:175-210 | length and validity checks and dispatch, for every payload |
| `ArpDaemon.Arpd.Step` | arp.c:94-211 | every step of the object is a step of the transition function |
| `ArpFrames.ValidPayloadIff` | arp.c:554-584 | exactly the payloads with header bytes DE AD 00 01 00 02, lengths up to 8 and 16, operation 1 or 2 and enough bytes are handled, with the four addresses at their offsets |
| `ArpFrames.OthersAreIgnored` | arp.c:191-208 | any other payload within the buffer leaves the daemon unchanged |
| `ArpFrames.BuiltBytes` | arp.c:519-547 | the bytes of a built packet: the header by value, the addresses in order, zeros for a null argument |
| `ArpFrames.RequestOnTheWire` | arp.c:282-294 | a request goes to six bytes FF from the device's address, and its 30 bytes are the header, the device's two addresses, six zeros and the target |
| `ArpFrames.OverheardRequest` | arp.c:590-593 | a request for another host's address changes nothing: no reply and no entry |
| `ArpFrames.RequestForUs` | arp.c:593-646 | a request for this host sends exactly the reply with these bytes and adds exactly this resolved entry for its sender, unless some entry has the address |
| `ArpFrames.ReplyForAnyone` | arp.c:651-695 | a reply completes exactly the waiting entries of its address with this hardware record, answers and closes their clients in list order, and does nothing else |
| `ArpSources.AnswersWhatWasAsked` | arp.c:238-269 | in every run whatever a client is sent is the resolution of an address asked for on its descriptor |
| `ArpSources.NothingOverheard` | arp.c:593-646 | in every run every waiting or resolved entry is for an address that a client asked for or whose host asked for one of ours |
| `ClientLog.OneAnswerPerAccept` | arp.c:262-269 | in a legal log an answer on a descriptor follows an earlier answer or close on it only after a new accept |
| `ArpInvariant.FirstMatchDecides` | arp.c:258-260 | the first entry found for an address is resolved exactly when any is, and holds its one hardware address |
| `ArpInvariant.AcceptFindsNothing` | arp.c:157-168 | an accept keeps the list acyclic exactly unless it failed and some entry's socket is -1 |
| `ArpInvariant.AcceptEffect` | arp.c:159-172 | an accepted client gets a zeroed entry with its descriptor at the head of the list; a failed accept the same entry without a client |
| `ArpInvariant.SweepKeepsInv` | arp.c:115-147 | a sweep keeps the invariant and every resolved entry, with removal by value |
| `ArpInvariant.ReqKeepsInv` | arp.c:611-646 | a request keeps both |
| `ArpInvariant.ReplyKeepsInv` | arp.c:674-693 | a reply keeps both |
| `ArpInvariant.RunKeepsInv` | arp.c:94-211 | every run keeps both, for any input of clients and network |
| `ArpInvariant.ReachableListsAgree` | cache.c:133-147 | in every reachable state an address with a resolved entry has only resolved entries, all with the same hardware address |
| `ArpInvariant.ResolutionIsStable` | arp.c:643-646 | once resolved, an address stays resolved to the same hardware address in every later state, and lookup returns it |
| `ArpInvariant.ClientsAnsweredOnce` | arp.c:677-688 | in every run each accepted client is sent at most one hardware address and none after its close |
| `ArpInvariant.NoNodeAddedTwice` | arp.c:157-168 | in every reachable state the lookup of a fresh descriptor finds nothing |
| `ArpInvariant.ReplyResolvesAll` | arp.c:674-693 | one reply leaves no waiting entry of its address and changes no other entry |
| `ArpInvariant.ReplyAnswersEveryClient` | arp.c:677-688 | it sends its value to exactly the waiting clients with open sockets, in list order, and closes them |
| `ArpInvariant.SecondReplyIsIdle` | arp.c:689-691 | a further reply for the address, even with another answer, changes nothing |
| `SweepFault.SweepEffect` | arp.c:115-147 | the exact effect of a sweep that does not fault, read off the list it starts with: the calls on descriptors and the frames sent, turn by turn in list order, the descriptors left open, and the list that is left |
| `SweepFault.AskingClientIsServed` | arp.c:238-299 | however many clients ask in one pass, each is sent the resolution and closed, or stays open with a request sent from every device |
| `SweepFault.SweepFaultsIff` | arp.c:115-147 | a sweep as written uses freed memory exactly when, counted on the list it starts with, it unlinks the first entry and, unless the back link dangles already, also the entry that takes its place |
| `SweepFault.SweepForgetsIff` | arp.c:129-138 | a sweep that does not fault forgets exactly the clients that it does not drop and whose entry, counted on the list it starts with, it unlinks; the accounts stay right exactly when they were and there is no such client |
| `SweepFault.NextOkIff` | arp.c:94-211 | for every reachable daemon as written and every step: exactly when the step is defined |
| `SweepPlan.TurnUnlinks` | cache.c:62-64 | a dropping turn unlinks one entry, the first one left with its address: the one whose rank among the entries with that address is the number of earlier drops with it |
| `ArpFaults.SweepAgrees` | arp.c:115-147 | otherwise it does what the repaired sweep does, which is always defined |
| `ArpFaults.AsWrittenUsesFreedMemory` | arp.c:129-138 | a run from the start that gets there: two clients connect and hang up |
| `ArpFaults.FailingAcceptsMakeACycle` | arp.c:157-168 | a run from the start in which a second failing accept makes the list a cycle |
| `ArpFaults.DroppingTwoAtHeadFaults` | arp.c:129-138 | dropping the first two entries in one sweep always does |
| `ArpFaults.RepairedOkIff` | cache.c:65-66 | with the back link cleared the next step of a reachable daemon is defined exactly unless a failed accept finds an entry with socket -1 or a frame does not fit |
| `ArpFaults.FrameOkIff` | arp.c:175-210 | a frame is handled within the buffers and not through a null address exactly when its payload is at most 58 bytes and, for a valid packet, the lengths, the target and the interface are as the handler needs them |
| `ArpFaults.FramesThatFault` | arp.c:586-664 | frames that, received first, copy past `struct arp_hdr`, past the target address, or from a null hardware address |
| `ArpFaults.DropAccountedIff` | arp.c:131-136 | dropping a client keeps the descriptor accounts exactly when the entry unlinked is the one meant or one closed before |
| `ArpFaults.IntendedAccounting` | arp.c:129-138 | with removal of the entry meant, in every run the open descriptors are exactly the distinct sockets of the unresolved entries |
| `ArpFaults.AsWrittenLosesAClient` | arp.c:131-136 | a run of the code as written that forgets a connected client |
| `ArpFaults.ForgottenForever` | arp.c:129-138 | in every later state of every run a forgotten client's descriptor is open, held by no entry, and neither answered nor closed |
| `ArpNetwork.ArrivalCarries` | arp.c:187-195 | a frame in flight is read as the packet its sender built, and that packet is true |
| `ArpNetwork.NetRunKeepsInv` | arp.c:94-211 | every run of every network keeps all caches, answers and frames true |
| `ArpNetwork.CachesAreRight` | arp.c:624-635 | with unique addresses, in every run, every resolved entry holds the hardware address of the one owner of its address and a device of the host to reach it by |
| `ArpNetwork.AnswersAreRight` | arp.c:660-685 | likewise everything handed to clients |
| `ArpNetwork.InFlightIsHandled` | arp.c:175-210 | no frame that the daemons send takes a receiver with a known interface out of defined behaviour |
| `ArpNetwork.ServedFromCache` | arp.c:258-270 | a client asking for a resolved address is sent that resolution and closed, exactly unless its entry's removal goes through a dangling back link of the head |
| `ArpNetwork.LeftWaiting` | arp.c:272-299 | a client asking for an unresolved address waits, and exactly one request for it is sent from each device, in order |
| `ArpNetwork.ExchangeResolves` | arp.c:586-688 | when a broadcast reaches the owner it sends one reply to the asking device; when that comes back, every waiting client is sent the owner's hardware address |
| `ArpNetwork.WaitingCanBeAnswered` | arp.c:586-688 | from any state satisfying the network invariant, with a client waiting, its request in flight and an owner on the network, two deliveries to the devices addressed lead to the client being sent the owner's hardware address |
| `ArpNetwork.QueryCanBeAnswered` | arp.c:224-300 | likewise three steps from the connected client's query for an unresolved address |
| `TourModel.TourRoundTrip` | tour.h:29-34 | a tour message is read back from its bytes as it was |
| `TourModel.LenRoundTrip` | tour.c:337 | a length survives network order in a signed short |
| `TourModel.PortRoundTrip` | tour.c:396-415 | a port survives its signed short storage and sign extension at each hop; port 0 becomes the one `bind` chooses |
| `TourModel.AddPing` | ping.c:235-262 | the targets afterwards are those before and the new one |
| `TourModel.Reverse` | tour.c:116-122 | position by position the reversed route |
| `TourNode.ValidArgs` | tour.c:68-82 | accepts exactly the lists of at most 16376 names without equal neighbours |
| `TourPackets.ArgsAcceptedIff` | tour.c:68-82 | list by list: accepted exactly when it fits an IP packet and no injective resolution of the names sends the message from a host to itself |
| `TourNode.TourBuffer.FillRoute` | tour.c:116-122 | the two-index loop stores the route reversed, failing exactly when a name does not resolve |
| `TourNode.TourBuffer.Forward` | tour.c:326-340 | pops the next address in place and sends the rest |
| `TourNode.TourHost.CreatePingt` | ping.c:235-262 | one list entry for each distinct target |
| `TourNode.TourHost.DestroyPingt` | ping.c:283-288 | the list ends empty |
| `TourNode.TourHost.StartTour` | tour.c:84-124 | the source's membership and the first packet |
| `TourNode.TourHost.Receive` | tour.c:187-255 | the receive step on the host's fields for every packet, with the zeroed receive buffer and the port `bind` chooses for a received port of 0 |
| `TourPackets.OtherPackets` | tour.c:187-192 | a packet that is too short, announces too little or has another IP id leaves the host unchanged |
| `TourPackets.HostAfterPacket` | tour.c:204-234 | any other packet makes the host ping its sender and, unbound, join the group and port given by the first six bytes |
| `TourPackets.OutputAfterPacket` | tour.c:236-255 | it is passed on to the last address in it with that address removed, its first six bytes kept and the count in network order, or the end is announced; a count above 16376 is out of bounds |
| `TourPackets.ForwardedBytes` | tour.c:326-376 | the packet sent for any message: IP fields, header bytes and the remaining addresses in order |
| `TourRun.PacketsFit` | tour.c:342-376 | every packet of every accepted tour passes the receiver's checks, fits, announces its true length, and its bytes are read as the message with the next host removed and the port intact |
| `TourRun.PacketBytes` | tour.c:103-123 | the bytes of each packet of a tour: group 233.3.3.3, the port, the number of hosts left in network order, and these, last first |
| `TourRun.RunKeepsInv` | tour.c:126-258 | the tour invariant in every state of every run with losses and failures |
| `TourRun.TourFollowsRoute` | tour.c:236-255 | the visited hosts are a prefix of the route; an end is announced once, by the last host, after the whole route and as many sends |
| `TourRun.TourCompletes` | tour.c:326-340 | without losses each delivery is possible and visits the next host, and the last one, after exactly as many as the route has hosts, announces the end |
| `TourRun.MembersBeforeEnd` | tour.c:206-230 | in every state of every run the source and all visited hosts, but one that failed, are members of the source's group on the source's port, bound once; at an announcement all hosts of the route are |
| `TourRun.NobodyStopsEarly` | tour.c:151-169 | once a host has stopped without failing, the whole route has been visited, all its hosts are members, and none failed |
| `TourRun.FailedHostIsOut` | tour.c:206-240 | only the next host of the route can fail with the message, and the tour then stands still |
| `TourRun.PingsAreThePredecessors` | tour.c:231-234 | in every state of every run a host in its loop, but one that failed, pings exactly the distinct hosts that sent it the message, one thread each |
| `TourRun.SelfHopFreeIffInjective` | tour.c:75-80 | the argument check excludes hops from a host to itself exactly when no two names share an address |
| `TourRun.NoSelfHop` | tour.c:75-80 | for such names no packet after the first goes from a host to itself |
| `TourRun.NobodyPingsItself` | tour.c:75-80 | then only the source can ping itself, and only if it starts its own route |

## Left out

- Socket creation, `select`, signal handling and process exit: system calls, kept only as inputs and as the log of outputs.
- `FD_SET` of a negative descriptor: undefined in C; the model lets the readability of such an entry be arbitrary.
- `areq` in api.c: represented as a client that connects, sends one request and is sent one answer.
- Interface enumeration and all printing: the device list is given.
- Threads, sleeps and the timing of `end_tour`: scheduling and wall-clock behaviour.
- Name lookups: an arbitrary map from names to addresses.
- Several tours at once: the transition system has one tour, whose message is not duplicated.
- What happens after `UseAfterFree`, `CyclicList`, `NullMac` or `OutOfBounds`: a run ends there.
- ArpWire.WireRoundTrip: excludes a payload of exactly ten bytes, which `recv_frame` does not copy and the daemon ignores.
- The tour hosts are little-endian in `htons`; on a big-endian host the conversion is the identity.
- `getCacheByHWAddr` and `hwa_searchbyindex`: unused, and one more search loop each.
