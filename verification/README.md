# A verified model of the protocol stack

This project models the core of a small user-space TCP/IP stack in Dafny and proves what its layers promise, over
every input and every run: IPv4 fragmentation and reassembly, the coverage bitmap and the Internet checksum, the ARP
cache, TCP control blocks with active open, Ethernet framing and protocol dispatch.

`dafny verify dfyconfig.toml` checks everything.

## How the model is built

Code that updates things in place is written in place: bitmaps and frame buffers are arrays, the reassembler, the ARP
cache, the control-block table and the protocol lists are classes. Each method is proved against a function on values
(`Reassembly.Step`, `ArpTable.Update`, `Tcp.Rx`, ...), and the properties of runs are proved about those functions.
A mutex-protected section is one atomic step.

| file | what it holds |
|---|---|
| `ByteOrder.dfy`, `Wrappers.dfy` | machine integers, memory images, `hton16`, options |
| `Bitmap.dfy`, `Checksum.dfy` | `maskset`, `maskchk`, `maskclr`; `cksum16` and ones-complement arithmetic |
| `Reassembly.dfy`, `Reassembler.dfy` | reassembly as a state machine with its theorems; the buffers and the list in place |
| `Ip.dfy`, `IpInput.dfy` | header bytes, the sending loop, `ip_rx` and the upper-layer handlers |
| `RoundTrip.dfy`, `Delivery.dfy`, `Output.dfy` | what `ip_tx` cuts up is put together again; all layers between two hosts; `ip_tx` above `arp_resolve` |
| `Ethernet.dfy`, `Net.dfy` | framing, padding, the receive filter; registration and dispatch |
| `ArpTable.dfy`, `ArpCache.dfy`, `ArpRuns.dfy`, `ArpRaces.dfy` | the table on values, in place, and under every interleaving; what threads that meet can do |
| `Tcp.dfy`, `TcpStack.dfy`, `TcpRules.dfy`, `TcpRuns.dfy`, `TwoHosts.dfy` | control blocks on values and in place, what happens to whom, runs and reply chains, two hosts |
| `TcpChecksum.dfy`, `TcpWire.dfy` | the pseudo-header; segments as bytes |

Modelling choices:

- A `uint32_t` mask word is the sequence of its 32 bits, and `|`, `&`, `^`, `<<`, `>>` act on those bits. Everywhere
  else fixed-width integers are bounded integers with wrap-around written out.
- The host's byte order is a parameter of every operation that depends on it; the theorems about two hosts hold
  between different byte orders. IP addresses are their four octets.
- The clock, `random()`, the outcome of `malloc` and whether a device accepts a packet are parameters. Handlers are
  numbers, and calling one is an entry in a trace; so is transmitting a packet.
- The three readings of the clock in one `ip_fragment_process` call, and the two in `arp_rx`, are separate parameters.
- The list of fragments is what the pointer updates describe; node lifetime is not modelled.
- `ip_fragment_alloc` is modelled as clearing exactly the mask of the entry.

## What was found

Some properties one would expect do not hold of the code. Each is stated with the exact condition under which it does.

- A segment sent by `tcp_tx` passes the checksum test of `tcp_rx`, on a host of either byte order, if and only if the
  low halves of the two addresses agree modulo 65535 as the sender sees them (`TcpChecksum.AcceptedIff`): line 275 of
  `tcp.c` sums the sender's low half where the peer's belongs. On a little-endian sender the low half is the first two
  octets, so little-endian hosts on one /16 network do not notice. Two hosts can establish a connection if and only if
  the halves agree as each of them sees them (`TwoHosts.EstablishedIffAgree`); hosts of different byte orders would
  need both halves to agree.
- An expired reassembly entry never gives its place back, because the number of unlinked entries is not subtracted
  from `count`. A new datagram is admitted if and only if live plus ever-expired entries are fewer than eight
  (`Reassembly.AdmittedIff`), and after eight expiries nothing is ever reassembled again (`Reassembly.Starved`).
- Two ARP messages of one unknown sender can meet between the two locked sections of `arp_rx` and leave two entries
  (`ArpRaces.GapDuplicates`); the second section keeps addresses unique if and only if the sender is still unknown
  (`ArpTable.InsertUniqueIff`).
- A resolver that wakes from its wait does not check whose slot it is reading, nor whether it has been resolved. It can
  return another host's hardware address (`ArpRaces.WokenForAnother`), and it can report success with
  00:00:00:00:00:00 although its slot holds the host it asked for (`ArpRaces.WokenUnresolved`). Among hosts whose
  hardware addresses are their own, its answer was announced by the host it asked for if and only if the slot still
  holds that host and is resolved (`ArpRaces.WokenIff`).
- A resolver whose wait times out clears its slot without that check and can discard another host's packet
  (`ArpRaces.TimeoutForAnother`); it leaves others alone if and only if the slot is unused, still its own, or, as far as
  packets go, holds none (`ArpRaces.TimeoutIff`).
- A SYN without the ACK bit but with a large acknowledgment field establishes a connection nobody acknowledged
  (`TcpRuns.UnacknowledgedEstablished` says exactly which segments do, `TcpRuns.EstablishedIff` which establish one at
  all).
- On a big-endian host `cksum16` adds an odd last byte unshifted, so the checksum is that of RFC 1071 if and only if the
  length is even or that byte is zero (`Checksum.ChecksumIsRfc1071`); on a little-endian host it always is.
- A block in SYN_SENT answers a wrong acknowledgment with a reset even if it came with one (`TcpRules.SynSentAnswers`),
  and a block in SYN_RCVD or ESTABLISHED is never changed again (`TcpRules.StaysForever`).
- A refused connection stays in SYN_SENT: the answer of a host without a matching block does not count the SYN in its
  acknowledgment and comes from port 0, so it never closes the block that sent the SYN (`TcpRuns.RefusalUnnoticed`,
  exact condition for a reset to close it in `TcpRuns.ResetIff`).
- A reset leaves the local port in the slot it frees, and a later open revives it beside another connection that took
  the same port (`TcpRuns.PortShared`, exact condition in `TcpRuns.OpenKeepsPortsIff`).
- `ip_tx` does not check the length it is given, and its offset field has 13 bits. Offsets survive if and only if there
  is one packet, or the capacity is a multiple of 8 and the last packet starts below 65536
  (`RoundTrip.ExactIffAligned`). Ethernet's 1480 is a multiple of 8, but offsets wrap in a payload above 66600 bytes,
  say of 70000 (`RoundTrip.ExactOverEthernet`).

## Model

| member | source | states |
|---|---|---|
| ByteOrder.Hton16Injective | util.c:76-96 | different port numbers or frame types have different network-order images |
| ByteOrder.WireValue | util.c:84-96 | a 16-bit field written by a host of either byte order is read back as the same value by a host of either byte order |
| ByteOrder.WireValue32 | util.c:80-112 | a 32-bit field lies in network order, and hosts of either byte order write and read the same value |
| Bitmap.RunBits | util.c:118-119 | the mask word built from two shifts has exactly the bits of the run |
| Bitmap.LacksRun | util.c:136-138 | the masked comparison is non-zero exactly when some bit of the run is missing |
| Bitmap.MaskSet | util.c:113-128 | sets exactly the bits of the interval and keeps every other bit, across head, whole words and tail |
| Bitmap.MaskCheck | util.c:130-152 | answers 1 exactly when every bit of the interval is set |
| Bitmap.MaskClear | util.c:154-156 | no bit is left set |
| Checksum.FoldTwice | util.c:54-55 | two folds of any 32-bit sum give its ones-complement value |
| Checksum.NoOverflow | util.c:43-53 | no 16-bit size overflows the 32-bit sum for initial sums below 2^31, and the result is then the exact ones-complement checksum |
| Checksum.ComputeCksum16 | util.c:43-57 | the loop, the odd byte, the folds and the complement compute the ones-complement checksum of the data |
| Checksum.WriteThenVerify | ip.c:418-421 | a checksum stored into its zeroed aligned field under initial sum p verifies to 0 under q exactly when p and q agree modulo 65535, with the one all-zero exception spelled out |
| Checksum.ByteOrderIndependence | util.c:43-57 | over even-length data, little- and big-endian hosts compute byte-swapped checksums and store the same two bytes |
| Checksum.WordSumByPosition | util.c:47-53 | the loop sums every byte with weight 1 or 256 by its position and the byte order, except that on a big-endian host an odd last byte counts once instead of 256 times |
| Checksum.PaddingLaw | util.c:51-53 | a zero behind data of odd length leaves the sum as it is exactly on a little-endian host or after a zero byte |
| Checksum.ChecksumIsRfc1071 | util.c:43-57 | the stored checksum is that of RFC 1071 for all data on a little-endian host, and on a big-endian one exactly when the length is even or the last byte zero |
| Checksum.VerifiesIff | util.c:43-57 | data of even length verifies exactly if its words in network order sum to a non-zero multiple of 65535 |
| Reassembly.StepInv | ip.c:175-230 | every call keeps keys distinct, entries incomplete, and the counter equal to live plus ever-expired entries |
| Reassembly.Accounting | ip.c:99-230 | in every reachable state that invariant holds, so live plus ever-expired entries are at most eight |
| Reassembly.AdmittedIff | ip.c:190-205 | a fragment of an unknown key is refused exactly when allocation fails or live plus ever-expired entries have reached eight |
| Reassembly.PatrolKeepsIff | ip.c:151-187 | once the clock has passed 10, exactly the entries touched in the last 30 seconds are kept, and the counter stays |
| Reassembly.Starved | ip.c:184-196 | after eight expiries no run returns a datagram or changes the state |
| Reassembly.StarvationReachable | ip.c:151-205 | nine lone fragments 31 seconds apart lead from the initial state to that point |
| Reassembly.EntryIsHistorySince | ip.c:184-229 | over every run, with expiry, refusal, restarts and overlaps: an entry is exactly what the fragments of its key said since an event that found no live entry of the key |
| Reassembly.OutputIsHistorySince | ip.c:184-229 | over every run: a fragment that is not refused hands up exactly the datagram assembled since such an event, if that is complete, and nothing otherwise; a refused one hands up nothing |
| Reassembly.EntryIsHistory | ip.c:184-229 | for an admitted datagram that never expires the start is its first fragment; it is handed up and removed exactly by the event that completes it |
| Reassembly.LatestWins | ip.c:207-212 | the last fragment covering a position supplies its byte, and the last one without MF fixes the length |
| Reassembly.OnlyCovered | ip.c:207-219 | no other position is filled, and the length is 0 until it is fixed |
| Reassembly.CompleteIffAllSeen | ip.c:216-224 | an entry holding pieces of one datagram is complete exactly when none is missing, and then it is that datagram |
| Reassembly.ReassemblesPartition | ip.c:175-230 | any partition of a datagram, delivered in any order, repeated and interleaved, comes out exactly once and exactly when the last missing piece arrives |
| Reassembler.Buffer.constructor | ip.c:107-113 | a new entry has received nothing |
| Reassembler.Buffer.Receive | ip.c:207-213 | copying, marking, length and time stamp together absorb the fragment into the partial map |
| Reassembler.Buffer.IsComplete | ip.c:215-224 | the length and bitmap test decides completeness, and the buffer prefix is then the datagram |
| Reassembler.Reassembler.Unlink | ip.c:122-138 | removes exactly that entry and keeps the order of the rest |
| Reassembler.Reassembler.Inspect | ip.c:159-170 | unlinks the entry exactly if it is late, and does not change what the patrol will leave |
| Reassembler.Reassembler.Patrol | ip.c:151-173 | keeps exactly the entries not older than 30 seconds, in order, and returns how many it unlinked |
| Reassembler.Reassembler.Sweep | ip.c:184-187 | the patrol runs whenever the clock has passed 10, and its result is not subtracted from the counter |
| Reassembler.Reassembler.Search | ip.c:140-149 | finds the first entry with the four matching fields |
| Reassembler.Reassembler.Alloc | ip.c:99-116 | adds an empty entry at the head |
| Reassembler.Reassembler.FindOrAlloc | ip.c:189-205 | finds or creates the entry, or refuses and changes nothing |
| Reassembler.Reassembler.Finish | ip.c:207-229 | absorbs the fragment and hands up and removes a completed entry |
| Reassembler.Reassembler.Process | ip.c:175-230 | the call on buffers, bitmaps and list refines one step of the state machine, result included |
| Ip.TxCore | ip.c:403-432 | builds the header with its checksum and appends the payload |
| Ip.PacketLayout | ip.c:408-424 | byte by byte: version 4, header of 20 bytes, length, identifier and offset in network order, time to live 255, addresses, a checksum that makes the header sum to all ones, and the payload |
| Ip.Tx | ip.c:466-475 | makes exactly the calls for the cut of the payload, in order, up to the first refusal |
| Ip.IdSource.Generate | ip.c:434-445 | returns the identifier of its turn and wraps at 16 bits |
| Ip.IdsRepeatIff | ip.c:436-442 | two datagrams share an identifier exactly when they are a multiple of 65536 apart |
| Ip.HeaderVerifies | ip.c:327-330 | the checksum ip_tx_core writes verifies on hosts of either byte order |
| Ip.DatagramArrives | ip.c:310-368 | any bytes, with any header length, options, version and time to live, are dropped exactly if the version is not 4, a length exceeds them, the header bytes do not sum to all ones, the time to live is 0 or the host is not addressed; else the payload lies between header and total length and the offset field decides |
| Ip.SealedArrives | ip.c:321-359 | with any checksum field a packet is dropped exactly when the field does not verify or the host is not addressed |
| Ip.PacketArrives | ip.c:300-359 | between hosts of any byte orders, a packet followed by any padding is dropped by a host it does not address; otherwise its offset field alone decides the path and its payload is recovered exactly |
| RoundTrip.ExactIffAligned | ip.c:466-470 | for every payload, every piece announces the position it was cut from exactly when there is one piece, or the capacity is a multiple of 8 and the last piece starts below 65536 |
| RoundTrip.ExactOverEthernet | ip.c:466-470 | over Ethernet that is exactly a payload of at most 66600 bytes |
| RoundTrip.PiecesPartition | ip.c:466-475 | the pieces, as a receiver decodes them, partition the payload |
| RoundTrip.FragmentRoundTrip | ip.c:447-476 | reassembly undoes ip_tx for every payload the buffer holds, under reordering, repetition and interleaving; nothing is returned before the last missing piece |
| RoundTrip.ShipmentArrives | ip.c:447-476 | the same, told by which piece each event brings |
| RoundTrip.InOrderRoundTrip | ip.c:447-476 | the pieces of an admitted datagram that arrive in order, at any times within the timeout, come out with the last one |
| RoundTrip.WholeDatagram | ip.c:356-368 | an unfragmented datagram that enters reassembly comes out at once and leaves the list as the patrol leaves it |
| IpInput.Input.AddProtocol | ip.c:478-495 | refuses a protocol already registered; otherwise payloads of that protocol reach the new handler |
| IpInput.Input.Check | ip.c:300-359 | the checks of ip_rx in order decide between dropping, direct delivery and reassembly |
| IpInput.HandUpIff | ip.c:369-374 | the first registration of the protocol takes the payload, and an unregistered protocol reaches no handler |
| IpInput.Input.CallHandler | ip.c:369-374 | the loop does that |
| IpInput.Input.Hand | ip.c:359-377 | the verdict is carried out, a completed datagram being handed up like a direct one |
| IpInput.Input.Rx | ip.c:300-378 | the whole of ip_rx refines classification, one reassembly step and one hand-up |
| Net.Registry.Register | net.c:51-70 | adds the handler at the head unless the type is registered or allocation fails |
| Net.Registry.Dispatch | net.c:72-80 | calls every matching handler in list order |
| Net.CalledIff | net.c:72-80 | on any list the handlers called are exactly those registered for the frame type, also behind another match |
| Net.UniqueDispatch | net.c:72-80 | with distinct types a frame type reaches exactly its handler, and none if unregistered |
| Net.RegistrationsDistinct | net.c:51-70 | after any registrations, failed ones included, types are distinct |
| Ethernet.Append | ethernet.c:202-207 | copies behind what is filled in and leaves the rest of the buffer zero |
| Ethernet.Tx | ethernet.c:192-216 | refuses missing or oversized arguments; otherwise destination, own address, type in network order, payload, and zeros up to 46 bytes |
| Ethernet.RxIff | ethernet.c:129-156 | any bytes are passed on exactly if they hold a header that addresses this host or every host |
| Ethernet.FrameArrives | ethernet.c:129-156 | a frame reaches the addressed host, or every host if broadcast, and no other, with its type and its padding |
| Delivery.SinglePiece | ip.c:467-470 | a payload of at most 1480 bytes is one packet with offset field 0 |
| Delivery.CarrierLayout | ethernet.c:202-207 | its frame names both hardware addresses and type 0x0800, and the packet follows |
| Delivery.CarrierArrives | ethernet.c:129-156 | through Ethernet, to the host's hardware address or to broadcast, dispatch and ip_rx, a packet arrives as its piece, padding removed |
| Delivery.CrossLayerDelivery | ip.c:300-374 | a payload of 1 to 1480 bytes, unicast or broadcast, reaches its registered handler exactly once with exactly its bytes, and reassembly is untouched |
| Delivery.FlaggedAgrees | ip.c:356-374 | a whole datagram with DF or the reserved bit set is delivered as on the direct path |
| Delivery.FrameIsEvent | net.c:72-80 | whatever the frame, dispatch and ip_rx act on it once, as its meaning says |
| Delivery.EndToEnd | ip.c:447-476 | a larger payload sent over Ethernet, unicast or broadcast, causes no delivery until the last missing frame and then exactly one, with exactly the payload, under any order, repetition and other traffic |
| Output.TakeTallies | ip.c:380-401 | every step of ip_tx, arp_resolve or arp_rx keeps what the threads have called, wait with and report equal to what the layers below count |
| Output.BelowIsRun | ip.c:384-396 | any number of threads in ip_tx are, to the ARP cache, one interleaving of its locked sections |
| Output.EveryPacketAccounted | ip.c:380-476 | over every interleaving each packet ip_tx has begun to send is with its waiting thread, reported as its error, saved in the ARP table, discarded there or handed to its device, copy for copy; saved and found ones leave for an address the destination announced, those of woken threads for one some host announced or the all-zero one, broadcasts for the broadcast address |
| Output.EveryFrameIsAPiece | ip.c:403-475 | no frame is invented: each is a piece of a datagram some thread has begun to send |
| Output.FrameBringsPiece | ip.c:380-401 | and the addressed destination understands it as that piece |
| ArpTable.ReceptionIsRfc826 | arp.c:283-296 | received without interleaving, a message acts on the map of addresses as RFC 826 says: overwrite a known sender, add an unknown one only if we are the target and a slot is free, else change nothing |
| ArpTable.InsertUniqueIff | arp.c:98-111 | the second locked section keeps addresses unique exactly when the sender is still unknown |
| ArpTable.ResolveIff | arp.c:316-369 | told by the map: a known address is found, an unresolved one waited for, an unknown one asked for exactly if a slot is free and the packet can be saved; only asking changes the table |
| ArpTable.QueryAdds | arp.c:341-364 | asking adds exactly that address, unresolved, with the packet and its interface |
| ArpTable.WakeIff | arp.c:327-337 | after its wait a resolver is told the address in its slot, and fails exactly if the slot is unused or the wait timed out |
| ArpTable.SweepIff | arp.c:276-282 | a message clears exactly the entries older than 300 seconds, if the last sweep is more than 10 seconds ago |
| ArpCache.Cache.constructor | arp.c:371-377 | the table starts clear at the current time |
| ArpCache.Cache.FreeSpace | arp.c:84-96 | finds the first unused slot |
| ArpCache.Cache.Find | arp.c:113-124 | finds the first used slot for the address |
| ArpCache.Cache.Add | arp.c:98-111 | fills the first unused slot or fails |
| ArpCache.Cache.Merge | arp.c:126-153 | overwrites a known address and releases its saved packet through the device it was saved for |
| ArpCache.Cache.Patrol | arp.c:232-243 | clears exactly the entries older than 300 seconds |
| ArpCache.Cache.Receive | arp.c:276-285 | the first locked section of arp_rx: sweep if due, then merge |
| ArpCache.Cache.Begin | arp.c:310-368 | arp_resolve up to its return or its wait |
| ArpCache.Cache.Resume | arp.c:327-337 | arp_resolve after its wait |
| ArpRuns.ActKeeps | arp.c:232-369 | every locked section keeps unused slots clear, saved packets in unresolved entries with their device, resolved and used addresses announced |
| ArpRuns.ActFresh | arp.c:232-295 | and, on a clock that does not go back, entries no more than 300 seconds behind the global time stamp |
| ArpRuns.ActBalances | arp.c:139-149 | every locked section conserves every saved packet |
| ArpRuns.ActAccounts | arp.c:304-369 | and every packet a call was made for: waiting, saved, handed over or failed |
| ArpRuns.PacketConservation | arp.c:139-167 | over every interleaving each packet asked for is with a waiting thread, saved, handed to its own device or failed, and each saved one waiting, handed to its own device or discarded, copy for copy; saved and found ones are handed over only with an address announced by their next hop, those of woken threads only with one announced by some host or the all-zero one |
| ArpRuns.StalenessBound | arp.c:232-285 | in every run no used entry is more than 300 seconds behind the global time stamp, nor more than 310 behind a received message |
| ArpRuns.ReceptionInSections | arp.c:276-296 | the two locked sections of arp_rx in a row are the reception of RFC 826; only a message to our own address adds a sender |
| ArpRuns.StaysKnown | arp.c:126-153 | over every run of 300 seconds in which no wait times out, an address that was heard stays known |
| ArpRuns.HeardThenDirect | arp.c:318-337 | and a packet for it is handed to its device at once, with an address it announced |
| ArpRuns.GapFreeUnique | arp.c:283-296 | over every run in which nothing enters the gap of arp_rx, no address has two entries |
| ArpRaces.GapDuplicates | arp.c:284-295 | in a table of any size from 2, two messages meeting in the gap leave two entries |
| ArpRaces.WokenAnswer | arp.c:323-337 | a woken resolver returns an address announced for whatever its slot now holds, or the all-zero one of an unresolved entry |
| ArpRaces.WokenIff | arp.c:323-337 | among hosts with hardware addresses of their own, the answer was announced for the address asked for exactly if the slot still holds it and is resolved |
| ArpRaces.WokenForAnother | arp.c:323-337 | in a table of any size, a run in which it returns the address of another host |
| ArpRaces.WokenUnresolved | arp.c:232-243 | in a table of any size, a run in which a patrol makes it return the all-zero address while the slot holds the right host |
| ArpRaces.TimeoutIff | arp.c:327-332 | a timed-out call fails; it spares the entries of other hosts exactly if its slot is unused or still its own, and their packets exactly if it is so or holds none |
| ArpRaces.TimeoutForAnother | arp.c:327-330 | in a table of any size, a run in which a timeout discards another host's packet |
| Tcp.Pigeonhole | tcp.c:435-447 | slots block at most as many ports as there are slots |
| Tcp.PortSearchSucceeds | tcp.c:430-453 | the search always finds the least unused port at or above its start, within 128 candidates, so the failure branch is unreachable |
| TcpStack.Stack.ApiOpen | tcp.c:388-405 | takes the first unused slot or fails |
| TcpStack.Stack.FindPort | tcp.c:435-447 | the nested loops find the least unused port |
| TcpStack.Stack.ApiConnect | tcp.c:411-471 | connect up to its wait, early failures keeping the fields set so far; it fails only for a bad slot, a missing interface or a failed send |
| TcpStack.Stack.Demux | tcp.c:324-340 | finds the first block of the connection, else the last free slot and the first listener |
| TcpStack.Stack.SegmentArrives | tcp.c:159-245 | the event switch in place |
| TcpStack.Stack.ReceiveBytes | tcp.c:294-382 | tcp_rx in place from the bytes of the segment: validation, checksum, demultiplexing, slot preparation and the event |
| TcpStack.Stack.Receive | tcp.c:322-382 | the part behind the checksum test |
| TcpRules.OnlyOwnersChange | tcp.c:324-340 | a block in use is changed only by a valid segment with its port, its peer's address and port, and its interface |
| TcpRules.FirstOwnerHandles | tcp.c:324-340 | such a segment is handled by the first block it belongs to |
| TcpRules.NoRoom | tcp.c:344-350 | without an owner and a free slot nothing happens |
| TcpRules.NobodyListens | tcp.c:352-371 | without an owner and a listener the last free slot stays free and answers the sender from port 0, unless the segment is a reset |
| TcpRules.ListenerSpawns | tcp.c:354-371 | otherwise it becomes a block of the first listener, bound to the sender, and nothing is sent |
| TcpRules.ResetNumbers | tcp.c:167-175 | on any table every reset takes its sequence number from the acknowledgment it answers, or is numbered 0 and acknowledges the payload |
| TcpRules.SynSentAnswers | tcp.c:177-228 | exactly what a block in SYN_SENT answers to any segment |
| TcpRules.StaysForever | tcp.c:166-245 | over every run a block in SYN_RCVD or ESTABLISHED is never changed again, not even by a reset |
| TcpRules.ConnectRefuses | tcp.c:414-426 | a bad slot, or one not open and closed, is refused without a change |
| TcpRules.SearchFailsIff | tcp.c:435-453 | the search for a port fails exactly if every port from its start to 65535 is taken |
| TcpRules.ConnectPort | tcp.c:430-453 | a slot without a port gets the least unused one from 49152 plus the time modulo 1024 on |
| TcpRules.ConnectOutcome | tcp.c:454-471 | only the slot changes, keeping port and peer also on failure; success takes an interface and a device and has sent exactly one SYN |
| TcpRuns.TableInvariant | tcp.c:166-471 | over every run: unused slots are closed, nothing listens, SYN_SENT has una = iss and nxt = iss+1, SYN_RCVD and ESTABLISHED expect irs+1, and ESTABLISHED has una = nxt if segments without ACK carry a zero acknowledgment |
| TcpRuns.EstablishedIff | tcp.c:179-216 | exactly which segments establish a block in SYN_SENT |
| TcpRuns.UnacknowledgedEstablished | tcp.c:205-216 | exactly which of them leave it established with its SYN unacknowledged, over all flags |
| TcpRuns.ResetIff | tcp.c:179-200 | a reset closes a block in SYN_SENT exactly when it acknowledges our SYN |
| TcpRuns.RefusalUnnoticed | tcp.c:167-175 | whatever a host without a matching block answers to a SYN leaves the block that sent it unchanged |
| TcpRuns.ReplyRanksLower | tcp.c:294-382 | on any table a segment causes at most one reply, and one of smaller rank |
| TcpRuns.RepliesTerminate | tcp.c:166-244 | across hosts with arbitrary tables one segment starts at most three replies |
| TcpRuns.ThreeReplies | tcp.c:166-244 | the bound is met, with tables of any size |
| TcpRuns.ConnectKeepsPorts | tcp.c:430-457 | connecting never makes two used blocks share a port |
| TcpRuns.RxKeepsPorts | tcp.c:342-379 | neither do segments |
| TcpRuns.OpenKeepsPortsIff | tcp.c:393-400 | opening keeps ports distinct exactly when the slot it takes holds no port in use elsewhere |
| TcpRuns.PortShared | tcp.c:190-200 | in a table of any size from 2, a run of opens, connects and a reset after which two used blocks share a port |
| TcpChecksum.VerifiesAnywhere | tcp.c:309-320 | on segments of even length the checksum test does not depend on the byte order of the host that makes it |
| TcpChecksum.AcceptedIff | tcp.c:270-278 | a sent segment is accepted by a peer of either byte order exactly when the low address halves agree modulo 65535 as the sender sees them |
| TcpChecksum.VerifiesIsRfc793 | tcp.c:309-320 | a segment passes exactly if its sum according to RFC 793, pseudo-header included, is a multiple of 65535; a big-endian host misses 255 times an odd last byte |
| TcpChecksum.AcceptedAlways | tcp.c:270-278 | the exact condition for acceptance for segments of any length between hosts of any byte orders |
| TcpChecksum.SameNetworkAccepted | tcp.c:309-320 | every segment from a little-endian host to one on its /16 network is accepted |
| TcpChecksum.OtherNetworkRefused | tcp.c:309-320 | from a little-endian 192.168.33.11 to 10.0.0.1 every segment is refused |
| TcpWire.Transmit | tcp.c:251-278 | the header bytes tcp_tx hands to ip_tx, its checksum computed and stored |
| TcpWire.WireLayout | tcp.c:257-268 | byte by byte: ports as they lie in memory, numbers and window in network order, offset, flag bits |
| TcpWire.FieldsArrive | tcp.c:159-165 | a header with any options and payload behind it is read on a host of either byte order with all its fields |
| TcpWire.WireArrives | tcp.c:257-268 | so are the bytes of tcp_tx |
| TcpWire.SentIsReceived | tcp.c:294-320 | a receiver acts on them with those fields exactly when the low address halves agree, and else not at all |
| TwoHosts.HandshakeStep | tcp.c:177-228 | one delivery to a live connection keeps both ends and the reply consistent |
| TwoHosts.HandshakeAgreement | tcp.c:177-228 | between hosts of any byte orders with any other blocks, over a network that loses, repeats and reorders, an ESTABLISHED end has exactly its SYN acknowledged, expects the byte after the peer's SYN, and the peer is in SYN_RCVD with its initial sequence number |
| TwoHosts.EstablishedReachable | tcp.c:205-223 | from any tables the two may start with, a run in which one end is ESTABLISHED |
| TwoHosts.NeverEstablished | tcp.c:309-320 | with computed checksums, in no run is either end ESTABLISHED if the low address halves disagree as one of the hosts sees them |
| TwoHosts.EstablishedIffAgree | tcp.c:270-320 | with computed checksums a connection can be ESTABLISHED exactly if they agree as both hosts see them |

## Left out

- Reassembler.Reassembler.Process: requires a non-empty fragment inside the 65535-byte buffer, because the code copies and marks without a check.
- IpInput.Input.Rx: requires that the total length covers the header and that a fragment is in bounds, which the code does not check.
- Bitmap.MaskSet: requires a non-empty interval inside the array, because the size argument is never used and a shift by 32 is undefined.
- Ip.Tx: requires an MTU above 20 and at most 4096, the size of the packet buffer; the source address is a parameter.
- TcpStack.Stack.Receive: a matching block without an interface sends nothing, where the code would follow a null pointer.
- TcpStack.Stack.ReceiveBytes: requires at most 65535 bytes, which an IP datagram never exceeds.
- TwoHosts.HandshakeAgreement: each application connects once, and other blocks keep off its port; a failed checksum test counts as a loss.
- ArpRaces.WokenIff: assumes that no hardware address is announced for two hosts, since another host's address may otherwise happen to be the right one too.
- Raw devices, sockets, threads and condition-variable timing; waking up is a non-deterministic step, and no liveness is claimed.
- ARP requests and replies on the wire, and the validation of ARP header fields.
- Output.EveryPacketAccounted: devices that do not use ARP are not modelled; whose address a woken thread gets is what `ArpRaces.WokenIff` says.
- Address text conversion, dumps and name tables: they would only add easy members.
- TCP bind, listen, accept, send, receive and close, which are declared or empty, and the states after ESTABLISHED.
- Routing, gateways and forwarding, which are placeholders; driver, device and interface registration.
- Allocation lifetime: line 165 of `ip.c` frees the successor of the node it unlinks, which the model does not capture.
