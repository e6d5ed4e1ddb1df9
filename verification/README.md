# Pico-Fi protocol model

Pico-Fi is RP2040 firmware that bridges a UART, I2C, SPI or USB host to TCP over Ethernet. This project models
its protocol logic in Dafny and proves properties of whole runs of it:

- **Addressing.** A timed policy (DHCP first, then a probed link-local address of RFC 3927, with probes for a
  returning DHCP server) works together with the network driver, which transmits its ARP and DHCP frames and
  inspects received ones. `AutoAddress`, `ArpGuard`, `Ipv4ll`, `DhcpProbe`, `DhcpReply` and `DhcpResize` model the parts.
  `AddressRun` composes them into a step relation with a trace of everything seen on the wire and everything decided.
  `AddressClaim`, `AddressMigration`, `AddressStay`, `AddressRateLimit`, `AddressProgress` and `AddressConfig` prove what
  holds of every run.
- **Mailboxes.** `OverwriteQueue` keeps packets in a circular byte array beside a queue of lengths and is proved to
  be the bounded queue of packets in `PacketFifo`. `QueueWakeups` is the blocking protocol between two cores, with
  locking and signalling as separate steps, and `QueueStranding` says which mailboxes overwriting can harm.
- **Framing and the bridge.** `FrameDecoder` says byte by byte what the frame reader computes; `FrameReader` is the
  reader itself, over inputs that are cut and cancelled anywhere; `BridgeFraming` is the host's decoder, and
  `FramingAgreement` runs both on the same bytes. `BridgePipe` is one direction of the bridge from UART to UART over
  any number of sessions, with a bounded TCP window, and `BridgeProgress` its progress; `BridgeSelect` is both directions
  at both ends, poll by poll, and `BridgeFairness` is about what competes there. `ForwardTcp` and `UartBridge` are the
  turns of the loops whose steps the pipe takes.
- **I2C.** `I2cSlots`, `I2cReassembly`, `I2cTransfer`, `I2cPython`, `I2cHost`, `I2cRequests` and `I2cReplies` are version 1
  (32-byte slots) as written three times, in the firmware, the Rust host and the Python host. `I2cMailbox` is version 2.
- **Wire arithmetic.** `InternetChecksum` and `ConfigRecord`.

How it is built: what the source updates in place is a class here, or a method over an array, and each method is
proved equal to a specification function on values (`TickPolicy` to `Tick`, `Push` to `PushSlot`, `Read` to the
decoder). Runs are folds of these functions over arbitrary sequences of events, and the theorems are lemmas about
the runs. Machine integers are ranges of `int`; where the source wraps around, truncates or saturates, the model
does so in the same place. Clocks are unbounded natural numbers, as they stay far below 2^64 ms.

`dafny verify dfyconfig.toml` checks everything.

## What is false, and exactly when

- A producer blocked in `push` can be left waiting beside room for its packet on a queue that others use
  `push_overwrite` on: eviction makes room but signals none. It then waits until the next pop.
  `QueueStranding.OverwriteStrandsProducer` gives the four steps, `QueueStranding.CanStrandIff` says for which
  mailboxes it can happen, and `QueueWakeups.NeverStrandedIff` in which runs it does. No queue of this firmware mixes
  the two: `push_overwrite` is used on the queues of requests from I2C and SPI only, and `push` and `wait_for_space` on
  the mailbox to the UART and on the queues of responses only. For those, `QueueWakeups.NoLostWakeup` holds of every run.
- One changed byte in a DHCP OFFER is not always noticed. In the datagram, turning the UDP checksum field into zero
  means "no checksum": `DhcpReply.DatagramCorruptionDetectedIff` says that this is the only exception, and
  `DhcpReply.CorruptionCanGoUnnoticed` that it is real. In the IPv4 header, a change of the header's length can verify:
  `DhcpReply.HeaderChangeNoticedIff` says exactly when, and `DhcpReply.HeaderChangeCanVerify` gives packets. What then
  is the datagram is hardly ever an OFFER: `DhcpResize.AcceptedResizeIsLarge` says that the header has to grow or shrink
  by 16 bytes or more, and `DhcpResize.ResizedOfferAccepted` gives OFFERs with which 16 bytes go unnoticed.
- A reply to the I2C host is lost when a read of it fails, because the firmware has spent the slot by then and the host
  starts afresh in the middle of the reply; and when the firmware stages an answer or an error of its own while the
  reply is under way: a local command, a refused write, a packet of an unknown kind or a failed transfer overwrites it.
  `I2cReplies.NothingLostIff` says that a run loses nothing exactly without these, and `I2cReplies.FailedReadLosesReply`
  and `I2cReplies.LocalCommandLosesReply` give runs. Whatever happens, the replies the host gets are accepted ones in
  order, each at most once. Version 2 repeats what was not read and stages a local answer only in an empty mailbox.
- The two Rust decoders of I2C slots differ: the host takes idle slots with any magic.
  `I2cSlots.DecodersAgreeIff` says where, exactly, and `I2cSlots.DecodersDiffer` gives a slot.
- The receiver of the Rust host also takes a START at any offset and of any length, and continuations beyond the length
  of the packet. `I2cHost.ReceiversAgreeIff` says that it agrees with the firmware's exactly without such slots, and two
  lemmas give inputs.
- The Python receiver of I2C slots differs from the firmware's on three kinds of slot, which no sender in the
  repository produces: `I2cPython.ReceiversAgreeIff` says that they agree exactly without them, and one lemma gives an
  input of each kind.
- The Python decoder of bridge frames raises on a wrong magic, and then the frames completed by the same chunk are gone:
  what it hands out depends on how the bytes are cut. `BridgeFraming.FramesLostIff` says that frames are lost exactly if
  the chunk that fails completes one, and `BridgeFraming.CutsMatter` gives the bytes. The firmware's reader hands them
  out however the bytes are cut (`FramingAgreement.DecodeBothWays`).
- A frame that has come over TCP need not get into the mailbox to the UART: replies to local commands can take each place
  that becomes free, for ever (`BridgeFairness.RepliesCanStarve`). Later frames cannot hold it up
  (`BridgeFairness.UploadNeverOvertaken`).
- UART_PROTOCOL.md:113 says that a full egress queue drops queued frames. The code refuses the new frame and keeps
  the queued ones; the model follows the code.

## Model

| member | source | states |
|---|---|---|
| AddressClaim.ClaimOnlyAfterProbing | src/net.rs:304-354 | In every run, every claim of an address is preceded, since the choice of that address, by exactly three transmitted frames, all ARP probes for it, 1000 + mac[4] ms apart, the last 3000 + mac[4] ms before the claim; no conflicting ARP frame was received, the link was up at every tick, and the address lies in 169.254.1.0 to 169.254.254.255 |
| AddressClaim.Invariant | src/protocol/auto_address.rs:126-173 | The inductive form: what policy, shared state and the trace since the choice of a candidate have to do with one another in each phase |
| AddressMigration.MigrationOnlyOnFreshOffer | src/protocol/auto_address.rs:66-79 | In every run, a link-local address is interrupted by an OFFER only if, since the last request for a DHCP probe, the DISCOVER of its nonzero transaction was transmitted, after it an OFFER for that transaction was received, no other request, migration or stop came between, and less than 4000 ms have passed |
| AddressMigration.OneMigrationPerRequest | src/protocol/auto_address.rs:206-222 | The request behind a migration is later than every earlier migration, so no request causes two |
| AddressStay.FallbackEndsIff | src/protocol/auto_address.rs:174-189 | In every run, an iteration gives a link-local address up exactly on link loss, lost configuration, a conflict, an accepted OFFER, or 60000 ms since the last connected tick or the claim |
| AddressStay.LeasedSessionUninterrupted | src/protocol/auto_address.rs:174-225 | Once a leased address is in use, no iteration does anything while link and configuration hold, whatever frames arrive and whatever the driver does |
| AddressStay.StayDiscipline | src/protocol/auto_address.rs:190-223 | In every stay, the claim and the DHCP probes are a probe interval apart, which is 15000 to 241020 ms, and at most two announcements are made, 2000 ms apart |
| AddressStay.ProbeIntervalRange | src/protocol/auto_address.rs:80-82 | The probe interval with its back-off lies between 15000 and 241020 ms |
| AddressRateLimit.CandidatesRateLimited | src/protocol/auto_address.rs:126-163 | In every run and every stretch of it without a restart of DHCP, any eleven candidates in a row span 60000 ms, also across the wrap-around of the attempt counter (section 9 of RFC 3927) |
| AddressRateLimit.SomeTen | src/protocol/auto_address.rs:229-239 | Of ten attempt numbers in a row, one is a multiple of ten, also across 2^32 |
| AddressProgress.BoundedAcquisition | src/protocol/auto_address.rs:99-173 | With the link up, no lease, no conflict, every requested frame transmitted before the next tick and ticks at most d apart, an address is claimed within 10000 + 3*mac[5] + 2*(1000 + mac[4]) + 3000 + mac[4] + 9*d ms |
| AddressProgress.TickProgress | src/protocol/auto_address.rs:99-173 | Every quiet tick claims, or leaves a deadline for the claim that is not later than before |
| AddressProgress.AnnouncedTwice | src/protocol/auto_address.rs:190-200 | A stay that has lasted 2000 ms + 2*d has made exactly two announcements, the first not before the claim, the second 2000 ms or more after the first |
| AddressProgress.ClaimedByDeadline | src/protocol/auto_address.rs:99-173 | From every acquiring state, not just the first: a claim by the deadline that the phase implies |
| AddressRun.Iteration | src/net.rs:312-351 | One iteration on the real objects decides as specified, and does to the shared state, to the stack configuration and to the remembered peer what the action calls for |
| AddressConfig.StackFollowsPolicy | src/net.rs:329-351 | In every run, the stack has a link-local address exactly while the policy claims one, and it is that one; it runs DHCP exactly while the policy waits for or uses a lease; and otherwise it has no configuration |
| AddressRun.MacKept | src/net.rs:311-351 | No step changes the hardware address |
| AutoAddress.AutoAddress.constructor | src/protocol/auto_address.rs:54-65 | The policy starts down, with attempt 0 |
| AutoAddress.AutoAddress.TickPolicy | src/protocol/auto_address.rs:83-228 | The whole new state and the action of a tick, for every phase and every input |
| AutoAddress.AutoAddress.OnlineTick | src/protocol/auto_address.rs:174-225 | The same for a tick with an address in use |
| AutoAddress.AutoAddress.ProbingTick | src/protocol/auto_address.rs:206-224 | The same for the DHCP probes at the end of such a tick |
| AutoAddress.AutoAddress.DhcpOffered | src/protocol/auto_address.rs:68-79 | An offer is taken in fallback while the window is open, and otherwise changes nothing |
| AutoAddress.AutoAddress.RetryPolicy | src/protocol/auto_address.rs:229-239 | After a conflict: a new choice, at once or after 60000 ms at every tenth attempt |
| AutoAddress.OnlineOutcome | src/protocol/auto_address.rs:174-225 | A tick with an address in use never chooses or claims one; it gives the address up or stays as it was, leased or in fallback |
| AutoAddress.FallbackTick | src/protocol/auto_address.rs:174-225 | In fallback a tick either ends the stay, for one of four reasons, or keeps the address, with at most one announcement or probe that was due |
| AutoAddress.TransactionId | src/protocol/auto_address.rs:214-221 | Transaction ids are never zero |
| ArpGuard.ProbeState.constructor | src/arp_guard.rs:20-31 | Nothing is requested or seen at first |
| ArpGuard.ProbeState.SetCandidate | src/arp_guard.rs:32-36 | A new candidate forgets old conflicts |
| ArpGuard.ProbeState.Clear | src/arp_guard.rs:37-42 | Everything but the hardware address is forgotten |
| ArpGuard.ProbeState.Request | src/arp_guard.rs:43-47 | A probe or an announcement is pending |
| ArpGuard.ProbeState.RequestDhcpProbe | src/arp_guard.rs:54-59 | A new transaction is pending, and no old offer counts for it |
| ArpGuard.ProbeState.StopDhcpProbe | src/arp_guard.rs:60-64 | No transaction is open |
| ArpGuard.ProbeState.TakeDhcpOffer | src/arp_guard.rs:65-67 | An offer is seen once |
| ArpGuard.ProbeState.Inspect | src/arp_guard.rs:68-80 | Flags an OFFER for a transmitted transaction and a conflict with the candidate, and nothing else |
| ArpGuard.ProbeState.Service | src/arp_guard.rs:92-115 | Which frame goes out, if any, and that exactly its request is cleared |
| Ipv4ll.LinkLocalCandidate | src/protocol/ipv4ll.rs:3-9 | The loop computes the specified hash and address |
| Ipv4ll.CandidateIsLinkLocal | src/protocol/ipv4ll.rs:8 | Every candidate is in the range of section 2.1 of RFC 3927 |
| Ipv4ll.ArpProbe | src/protocol/ipv4ll.rs:11-22 | The frame filled in place is the specified ARP request |
| Ipv4ll.ConflictIff | src/protocol/ipv4ll.rs:23-29 | Probes and announcements conflict exactly for other hosts that want the same address |
| DhcpProbe.IsOffer | src/protocol/dhcp_probe.rs:57-134 | In bounds and terminating on every byte string, and true exactly for the OFFERs as specified field by field, with the options given by a grammar |
| DhcpProbe.WalkIffOffersLease | src/protocol/dhcp_probe.rs:97-133 | The option walk accepts exactly the strings that some list of PADs and options followed by END encodes to, with one option 53 that says OFFER and one option 54 with a unicast address (RFC 2132, sections 2, 3, 9.6 and 9.7) |
| DhcpProbe.AnnouncesOffer | src/protocol/dhcp_probe.rs:97-133 | The loop decides that grammar |
| DhcpProbe.WalkSound | src/protocol/dhcp_probe.rs:97-133 | Whatever the walk accepts can be read as such a list |
| DhcpProbe.WalkComplete | src/protocol/dhcp_probe.rs:97-133 | Whatever such a list encodes to, the walk accepts |
| DhcpProbe.Ipv4Check | src/protocol/dhcp_probe.rs:65-78 | The IPv4 part: a whole unfragmented UDP packet from a unicast source under a verified header |
| DhcpProbe.UdpCheck | src/protocol/dhcp_probe.rs:79-86 | The UDP part: ports, exact length, and a checksum that verifies or is absent |
| DhcpProbe.BuildDiscover | src/protocol/dhcp_probe.rs:26-51 | The frame filled in place is the specified DISCOVER, all 342 bytes |
| DhcpProbe.PutChecksum | src/protocol/dhcp_probe.rs:36-37 | Sums the header while the field is zero, and then fills it |
| DhcpProbe.DiscoverHeaderVerifies | src/protocol/dhcp_probe.rs:31-37 | Every DISCOVER has a valid IPv4 header checksum (section 3.1 of RFC 791) |
| DhcpReply.ServerReplyIsOffer | src/protocol/dhcp_probe.rs:57-134 | The reply of a server, for any host, transaction, server and routable unicast address, is recognised |
| DhcpReply.DiscoverIsNotOffer | src/protocol/dhcp_probe.rs:55-57 | No DISCOVER, of any host, is taken for an OFFER |
| DhcpReply.HeaderChangeNoticedIff | src/protocol/dhcp_probe.rs:66-78 | One changed byte anywhere in a verified IPv4 header goes unnoticed exactly when it gives the header another legal length and the bytes that enter or leave it make up for the change modulo 65535 |
| DhcpReply.HeaderCorruptionRejectedUnless | src/protocol/dhcp_probe.rs:66-96 | So an OFFER with one changed byte in its IPv4 header stays accepted exactly in that case, if the datagram at the new place is an OFFER too; the next three rows say what that takes |
| DhcpResize.AcceptedResizeIsLarge | src/protocol/dhcp_probe.rs:66-96 | Every OFFER that is still accepted with one changed byte in its IPv4 header has had its first byte changed and its header made longer or shorter by 16 bytes or more: by 4, 8 or 12 bytes the fields of the two datagrams contradict each other |
| DhcpResize.ResizedOfferAccepted | src/protocol/dhcp_probe.rs:57-134 | There are such OFFERs, with a move of 16 bytes: for every server, and every host whose hardware address ends in bytes that can begin a routable unicast address, an OFFER in transaction 61798 that is still one when the first byte of its IPv4 header is changed from 0x45 to 0x49 |
| DhcpReply.HeaderChangeCanVerify | src/protocol/dhcp_probe.rs:66-78 | Among IPv4 packets, for every server and datagram there is one whose header length can be changed by 4 bytes unnoticed |
| DhcpReply.DatagramCorruptionDetectedIff | src/protocol/dhcp_probe.rs:79-86 | With a UDP checksum present, one changed byte of the datagram goes unnoticed exactly when it blanks the checksum |
| DhcpReply.CorruptionCanGoUnnoticed | src/protocol/dhcp_probe.rs:84 | For every host and transaction there is an OFFER of which that byte can be changed unnoticed |
| InternetChecksum.Sum | src/protocol/dhcp_probe.rs:9-18 | The sum of the 16-bit words modulo 2^32, a last odd byte being a high byte |
| InternetChecksum.Finish | src/protocol/dhcp_probe.rs:19-24 | Folding terminates and computes the specified residue |
| InternetChecksum.Checksum | src/protocol/dhcp_probe.rs:75-86 | No wrap-around for any length and pseudo-header that the recogniser lets through |
| InternetChecksum.FoldIsResidue | src/protocol/dhcp_probe.rs:19-24 | Folding keeps the value modulo 65535, with 65535 for nonzero multiples |
| InternetChecksum.VerifiesIff | src/protocol/dhcp_probe.rs:19-24 | A sum verifies exactly when it is a nonzero multiple of 65535 (RFC 1071) |
| InternetChecksum.WordsBound | src/protocol/dhcp_probe.rs:9-18 | The bound on a sum of words |
| InternetChecksum.WordsSplit | src/protocol/dhcp_probe.rs:9-18 | The sums of two regions add up if the first has even length |
| InternetChecksum.FilledRegionVerifies | src/protocol/dhcp_probe.rs:36-37 | Filling a zeroed aligned field with the checksum makes the region verify |
| InternetChecksum.OneByteChangeDetected | src/protocol/dhcp_probe.rs:75 | Any change of one byte of a verified region is noticed |
| ConfigRecord.DecodeEncode | src/config_record.rs:12-108 | Every configuration survives being written and read back |
| ConfigRecord.OneByteCorruptionRejected | src/config_record.rs:48-57 | Every accepted record with any one of its 64 bytes replaced by any other value is refused |
| ConfigRecord.FnvDetectsOneByte | src/config_record.rs:150-157 | Strings that differ in one byte have different hashes |
| ConfigRecord.FnvStepInjective | src/config_record.rs:152-155 | A step of the hash loses neither the running hash nor the byte |
| ConfigRecord.MultiplyInjective | src/config_record.rs:154 | Multiplication by 0x01000193 modulo 2^32 can be undone, by 0x359c449b |
| ConfigRecord.EncodeRecord | src/config_record.rs:13-46 | The buffer filled in place is the specified record |
| ConfigRecord.Checksum32 | src/config_record.rs:150-157 | The loop computes FNV-1a with 32-bit wrap-around |
| OverwriteQueue.QueueState.constructor | src/bridge/overwrite_queue.rs:53-61 | An empty ring |
| OverwriteQueue.QueueState.DiscardFront | src/bridge/overwrite_queue.rs:65-70 | Drops exactly the oldest packet; the ring keeps the others, wherever it wraps |
| OverwriteQueue.QueueState.Store | src/bridge/overwrite_queue.rs:71-76 | Two copies put the bytes behind those in use without touching them, wherever the ring wraps |
| OverwriteQueue.QueueState.Insert | src/bridge/overwrite_queue.rs:71-80 | Appends exactly the packet |
| OverwriteQueue.QueueState.Front | src/bridge/overwrite_queue.rs:172-177 | The two pieces of the ring are the oldest packet in its queued form |
| OverwriteQueue.OverwriteQueue.constructor | src/bridge/overwrite_queue.rs:90-97 | An empty mailbox with clear latches |
| OverwriteQueue.OverwriteQueue.HasSpaceFor | src/bridge/overwrite_queue.rs:98-100 | Whether a packet of that size fits by number and by bytes |
| OverwriteQueue.OverwriteQueue.TryPushRef | src/bridge/overwrite_queue.rs:120-134 | Appends if it fits, refuses otherwise, never disturbs accepted packets, and signals exactly when it appended |
| OverwriteQueue.OverwriteQueue.PushOverwriting | src/bridge/overwrite_queue.rs:149-168 | Refuses what can never fit, and otherwise drops the specified prefix and appends; signals no space |
| OverwriteQueue.OverwriteQueue.TryPop | src/bridge/overwrite_queue.rs:169-186 | Returns exactly the packet that was put in, oldest first, and signals space |
| PacketFifo.EvictedIsLeast | src/bridge/overwrite_queue.rs:157-162 | The dropped prefix makes room, and no shorter one does |
| PacketFifo.Conservation | src/bridge/overwrite_queue.rs:120-186 | In every run, the accepted packets are those popped or evicted, in order, followed by those resident, within both limits; without overwriting pushes nothing is evicted |
| PacketFifo.QueuedRoundTrip | src/bridge/uart_mailbox.rs:38-61 | Cut anywhere in two, the queued bytes give the packet back, in the implementation for the UART and in the one for I2C |
| PacketFifo.QueuedInjective | src/bridge/i2c_task.rs:50-77 | Different packets have different queued bytes |
| QueueWakeups.NoLostWakeup | src/bridge/overwrite_queue.rs:101-194 | In every run without overwriting pushes, with locking and signalling as separate steps, cancelled futures and any number of others at the queue: no parked consumer faces a packet and no parked producer faces room unless a signal is latched or on its way, and the two are never both stuck |
| QueueWakeups.NeverBothStuck | src/bridge/overwrite_queue.rs:101-194 | In every run, with overwriting pushes too: producer and consumer are never both stuck, and a parked producer that no signal will reach waits behind packets, whose next pop wakes it |
| QueueWakeups.ConsumerNeverStranded | src/bridge/overwrite_queue.rs:187-194 | For consumers, also with overwriting pushes |
| QueueWakeups.ProducerNeverStranded | src/bridge/overwrite_queue.rs:101-147 | For producers, without overwriting pushes |
| QueueWakeups.ProducerWakes | src/bridge/overwrite_queue.rs:101-147 | A parked producer with room goes on, by its latch or by a signal that is owed |
| QueueWakeups.NeverStrandedIff | src/bridge/overwrite_queue.rs:149-168 | With overwriting pushes: producers are never stranded exactly when no such push, meeting a producer that no signal will reach, has sizes that leave room: fewer than N packets with its own, and bytes for itself and for the waiting packet besides those not evicted |
| QueueWakeups.StrandsIff | src/bridge/overwrite_queue.rs:149-168 | The same for one step: the condition, on the state before it, is exactly what strands a producer |
| QueueStranding.CanStrandIff | src/bridge/overwrite_queue.rs:149-168 | A mailbox of N packets and B bytes can strand a producer, in some run with overwriting pushes, exactly when N is at least 2 and B is at least 2 and less than N times the longest packet |
| QueueStranding.StrandingNeeds | src/bridge/overwrite_queue.rs:149-168 | Only such a mailbox can |
| QueueStranding.FirmwareMailboxesCanStrand | src/bridge/uart_mailbox.rs:5 | The mailboxes of this firmware are of that sort |
| QueueStranding.OverwriteStrandsProducer | src/bridge/overwrite_queue.rs:149-168 | Four steps, written out, that strand a producer in a mailbox of 10 bytes |
| FrameReader.FrameReader.constructor | src/protocol/stream.rs:13-21 | Nothing read yet |
| FrameReader.FrameReader.Reset | src/protocol/stream.rs:23-26 | What was read is forgotten |
| FrameReader.FrameReader.Read | src/protocol/stream.rs:30-79 | A call consumes a piece of the stream, does to the retained bytes exactly what the decoder does, reports what the decoder reports, and holds nothing back once it has reported |
| FrameReader.FrameReader.ReadHeader | src/protocol/stream.rs:35-61 | The header loop, byte by byte, with and without resynchronisation |
| FrameReader.FrameReader.TakeHeaderByte | src/protocol/stream.rs:45-60 | What each header byte makes the reader keep, drop or report |
| FrameReader.FrameReader.ReadPayload | src/protocol/stream.rs:67-78 | The payload loop, in pieces of any size |
| FrameReader.Drain | src/protocol/stream.rs:28-79 | Whatever the sizes of the reads and wherever calls are cancelled and repeated with the same buffer, the frames and errors are those of the decoder on the whole stream |
| FrameReader.WriteFrame | src/bridge/uart_mailbox.rs:109-125 | Over any partial writes, one frame goes out in full, or a prefix of it and an error |
| FrameDecoder.DecodeConcat | src/protocol/stream.rs:28-79 | Decoding goes on where it left off |
| FrameDecoder.DecodeEncode | src/bridge/uart_mailbox.rs:109-125 | Every frame that fits the buffer is read back, resynchronising or not |
| FrameDecoder.DecodeFrames | src/protocol/stream.rs:30-79 | So is any concatenation of frames, and nothing is left over |
| FrameDecoder.LocksOnLeftmostPair | src/protocol/stream.rs:45-60 | Resynchronising, the reader locks on exactly at the first neighbouring bytes that are a magic |
| FrameDecoder.ScanGarbage | src/protocol/stream.rs:45-60 | Before that it reports nothing and holds at most one byte |
| FrameDecoder.ResyncDecodesExactlyTheFrames | src/protocol/stream.rs:35-66 | Garbage without a magic before, between and after frames that fit is skipped, and exactly the frames come out |
| FrameDecoder.UartGarbage | src/bridge/uart.rs:25 | With the magics of the UART, garbage only has to be free of magics itself |
| FrameDecoder.ReportEndsTheRead | src/protocol/stream.rs:62-78 | Without resynchronisation, a call that reports and holds nothing has stopped at the byte that made it report |
| BridgeFraming.BridgeFrameDecoder.constructor | host/python/bridge_framing.py:26-27 | An empty buffer |
| BridgeFraming.BridgeFrameDecoder.Push | host/python/bridge_framing.py:29-44 | Returns all complete frames at the front of buffer and chunk and keeps the rest, or fails on a wrong magic |
| BridgeFraming.PushAll | host/python/bridge_framing.py:29-44 | Over all chunks the decoder hands out the frames of the bytes, or fails at the first chunk with which the bytes parsed so far come to a wrong magic, having handed out the frames of the chunks before that one |
| BridgeFraming.FailsOnce | host/python/bridge_framing.py:35-38 | Whether it fails depends on the bytes alone, and it fails at one chunk only |
| BridgeFraming.FramesLostIff | host/python/bridge_framing.py:29-44 | At a failure, what was handed out is a prefix of the frames in the bytes, and some are lost exactly if the kept bytes and the chunk that fails begin with a complete frame |
| BridgeFraming.CutsMatter | host/python/bridge_framing.py:35-38 | One frame and four zeros: in one chunk a failure and no frame, in two chunks the frame and then the failure |
| BridgeFraming.StuckAfterFailure | host/python/bridge_framing.py:30-38 | After a failure the decoder fails at every further chunk |
| BridgeFraming.BuildBridgeFrame | host/python/bridge_framing.py:12-20 | The host builds the frame of any payload of at most 65535 bytes, and refuses longer ones |
| BridgeFraming.BuiltFrameIsRead | host/python/bridge_framing.py:12-44 | A built frame is read back by the host, and by the firmware exactly if it fits its buffer |
| BridgeFraming.ParseConcat | host/python/bridge_framing.py:29-44 | Parsing goes on where it left off |
| BridgeFraming.ReadersAgree | host/python/bridge_framing.py:23-44 | On every byte string, the firmware reader has not failed exactly when the host decoder has not, all payloads fit the firmware buffer, and the frame begun at the end has so far the right magic and no length beyond the buffer; and then both have returned the same frames and hold the same bytes |
| FramingAgreement.DecodeBothWays | host/python/bridge_framing.py:23-44 | The firmware reader and the host decoder on the same bytes, each cut up in its own way: the firmware reports no failure exactly when the host does not and everything fits the firmware buffer, and then both get the same frames; otherwise the firmware still gets every frame before the wrong magic if they fit, and the host a prefix of them that depends on the cuts |
| BridgeFraming.FirmwareReadsAll | src/protocol/stream.rs:30-79 | The firmware reader has returned every frame in front of a wrong magic, if they fit its buffer |
| FramingAgreement.ScriptDelivers | src/protocol/stream.rs:28-29 | However a connection cuts the bytes up and stalls, the reader is given the same stream |
| BridgePipe.DeliveredIsPrefixOfAccepted | src/bridge/uart_mailbox.rs:71-107 | Within a session, under any interleaving of admissions, partial writes, chunked reads, full mailboxes and local replies, what is delivered is a byte-exact prefix of what was accepted, and all of it once nothing is on the way |
| BridgePipe.SessionsDeliverPrefixes | src/bridge/uart.rs:79-132 | Over any number of sessions that end at any point, what is delivered is, session by session, a prefix of what was accepted in that session |
| BridgePipe.Invariant | src/bridge/uart_mailbox.rs:71-107 | Accepted = arrived ++ in hand ++ in flight ++ queued, and the bytes on the wire are the rest of the frames in flight |
| BridgeProgress.EveryScheduleDelivers | src/bridge/uart_mailbox.rs:83-103 | From every reachable state, every schedule of forwarding steps is finite, with a bound, and one that cannot be continued has delivered everything accepted in the session |
| BridgeProgress.AcceptedCanBeDelivered | src/bridge/uart_mailbox.rs:83-103 | And there is such a schedule |
| BridgeProgress.FinishedIff | src/bridge/uart_mailbox.rs:83-103 | Forwarding can always go on until nothing is on the way, however small the window of TCP |
| BridgeSelect.PollServesBoth | src/bridge/uart_mailbox.rs:71-107 | At either end, a poll of the task gets something done for each of its two futures that can do something, whatever the other one waits for, and leaves one that waits as it was |
| BridgeSelect.UploadNeverHeldUp | src/bridge/uart_mailbox.rs:71-107 | From every reachable state of both ends and both bounded windows, one direction delivers everything it has accepted once both tasks have been polled and the far UART has transmitted often enough, in any order, whatever happens in the other direction and however long it is blocked |
| BridgeSelect.DownloadNeverHeldUp | src/bridge/uart_mailbox.rs:71-107 | The same for the other direction |
| BridgeFairness.UploadNeverOvertaken | src/bridge/uart_mailbox.rs:71-107 | From every reachable state, everything a direction has accepted by then is delivered within a number of rounds fixed by that state, while its own UART goes on offering frames at any rate and anything happens in the other direction |
| BridgeFairness.DownloadNeverOvertaken | src/bridge/uart_mailbox.rs:71-107 | The same for the other direction |
| BridgeFairness.StepBehind | src/bridge/uart_mailbox.rs:71-107 | Each step keeps a pipe with later frames in it equal, up to what is behind, to one without them |
| BridgeFairness.RepliesCanStarve | src/bridge/uart.rs:31-46 | Replies to local commands, one for each packet that the UART transmits, keep a frame that has arrived out of the mailbox to that UART for any number of rounds |
| BridgeSelect.BothDeliverPrefixes | src/bridge/uart_mailbox.rs:71-107 | In every run of polls, admissions, replies, transmissions and new sessions, both directions deliver byte-exact prefixes, session by session |
| BridgeSelect.PollSendWorks | src/bridge/uart_mailbox.rs:83-91 | What one poll of the send future waits for, and that it gets something done otherwise |
| BridgeSelect.PollReceiveWorks | src/bridge/uart_mailbox.rs:92-103 | What one poll of the receive future waits for, and that it gets something done otherwise |
| BridgePipe.FeedInFrame | src/protocol/stream.rs:30-79 | Within a frame, the reader reports with the last byte and not before |
| ForwardTcp.AdmitUart | src/bridge/uart_mailbox.rs:62-69 | A frame is admitted or refused as a whole, behind the accepted ones |
| ForwardTcp.SendNext | src/bridge/uart_mailbox.rs:83-88 | A turn of the send loop takes the oldest packet and puts its frame on the wire, or a prefix of it and an error |
| ForwardTcp.ReceiveNext | src/bridge/uart_mailbox.rs:92-97 | A turn of the receive loop reads as the decoder does, and its packet is the frame reported |
| ForwardTcp.SendTurn | src/bridge/uart_mailbox.rs:83-88 | A turn of the send loop is two steps of the pipe: take, and write what TCP has room for |
| ForwardTcp.ReceiveTurn | src/bridge/uart_mailbox.rs:92-97 | A call of the reader is as many steps of the pipe as it consumes bytes |
| UartBridge.HandleFrame | src/bridge/uart.rs:24-55 | Commands are answered into one mailbox, data goes to the other while there is a session, nothing waits, and neither touches the other |
| UartBridge.TransmitNext | src/bridge/uart.rs:56-73 | The oldest packet goes out as one frame of its kind, or a prefix of it and an error |
| UartBridge.TransmittedFramesDecode | src/bridge/uart.rs:56-73 | What goes out on the UART is read back packet by packet and kind by kind |
| UartBridge.DrainUpload | src/bridge/uart.rs:98-100 | The upload mailbox is empty when a session starts |
| I2cReassembly.ReassemblySafe | src/bridge/i2c_task.rs:137-203 | Whatever slots arrive and whenever, a completed packet is the concatenation of one consecutive run of slots of one kind and transfer, from a START at offset 0, each at the offset reached and less than 50 ms after the one before, to an END at exactly the declared length, at most 4096 |
| I2cReassembly.Invariant | src/bridge/i2c_task.rs:90-203 | A packet in progress is what the slots since the last START have brought |
| I2cReassembly.PushKeeps | src/bridge/i2c_task.rs:137-203 | The same for one slot, in any state |
| I2cReassembly.RxPacketState.constructor | src/bridge/i2c_task.rs:101-111 | Nothing in progress |
| I2cReassembly.RxPacketState.Reset | src/bridge/i2c_task.rs:113-121 | Nothing in progress |
| I2cReassembly.RxPacketState.ResetIfStale | src/bridge/i2c_task.rs:123-135 | Forgets a packet that has not grown for 50 ms |
| I2cReassembly.RxPacketState.Push | src/bridge/i2c_task.rs:137-203 | The whole new state and result, for every slot in every state, within the buffer |
| I2cSlots.SlotCount | host/i2c_backend.rs:318-346 | A packet takes max(1, ceil(len / 14)) slots |
| I2cSlots.EncodeSlotsHost | host/i2c_backend.rs:318-346 | The Rust host cuts a packet into the specified slots |
| I2cSlots.EncodeSlotsPython | host/python/i2c/protocol.py:116-129 | So does the Python host |
| I2cSlots.FirmwareSlots | src/bridge/i2c_task.rs:298-337 | So does the firmware, which then gives out idle slots |
| I2cSlots.PutSlot | src/bridge/i2c_task.rs:614-639 | The slot filled in place is the specified one |
| I2cSlots.SlotRoundTrip | src/bridge/i2c_task.rs:577-607 | Every slot with a kind is read back by all decoders |
| I2cSlots.DecodersAgreeIff | host/i2c_backend.rs:370-398 | The decoder of the Rust host differs from the others on idle slots with a wrong magic, and nowhere else |
| I2cSlots.DecodersDiffer | host/i2c_backend.rs:370-382 | For instance 1 and 31 zeros: idle to the Rust host, an error to the others |
| I2cSlots.TxPacketState.constructor | src/bridge/i2c_task.rs:219-229 | Nothing staged |
| I2cSlots.TxPacketState.Stage | src/bridge/i2c_task.rs:239-247 | The packet, cut off at 4096 bytes, replaces what was staged |
| I2cSlots.TxPacketState.NextSlotBytes | src/bridge/i2c_task.rs:298-337 | The next slot of the staged packet, or an idle one, and what is left |
| I2cTransfer.FirmwareReceives | src/bridge/i2c_task.rs:426-455 | The slots of a packet, to a firmware receiver in any state, among idle slots and without gaps of 50 ms, bring nothing until the last and then exactly the packet |
| I2cTransfer.BackToBackReceived | src/bridge/i2c_task.rs:426-455 | In particular, slots written one after the other always bring the packet, whatever the receiver held before |
| I2cTransfer.HandleWrite | src/bridge/i2c_task.rs:426-455 | The first 32 bytes of a write are decoded and pushed as specified |
| I2cTransfer.ReadFrameHost | host/i2c_backend.rs:198-243 | The loop of the Rust host, slot by slot, with failed transfers and the parsing of what it has read |
| I2cTransfer.HostReads | host/i2c_backend.rs:198-243 | The Rust host puts any packet together again from its slots, among idle slots |
| I2cTransfer.IdleSlotsSkipped | host/i2c_backend.rs:198-243 | Idle slots change nothing, whatever the host is in the middle of |
| I2cPython.ReceiversAgreeIff | host/python/i2c/protocol.py:37-165 | On every list of writes in time, broken and idle slots included, the Python and the firmware receiver have the same result for every slot up to the first that ends the read, and hold the same packet in between, exactly when no slot up to there is of one of three kinds: a packet in one slot that is shorter than it says, a declared length above 4096 in a slot that is otherwise in order, or data at offset 0 after a START without data |
| I2cPython.SameRead | host/python/i2c/protocol.py:144-165 | Where they agree, both read the same packet, or refuse, or wait |
| I2cPython.DivergenceShows | host/python/i2c/protocol.py:51-71 | A slot of the three kinds makes the results differ at once, or for an empty slot that follows |
| I2cPython.SendersNeverDiverge | host/python/i2c/protocol.py:116-129 | No slot of any sender is of the three kinds, whatever a receiver holds |
| I2cPython.PythonDropsDataAfterEmptyStart | host/python/i2c/protocol.py:62-64 | Two slots that the firmware accepts as a packet and the Python host refuses |
| I2cPython.PythonReturnsShortPacket | host/python/i2c/protocol.py:152-155 | A slot that the Python host returns as a packet and the firmware refuses |
| I2cPython.PythonTakesOversizedStart | host/python/i2c/protocol.py:152-157 | A slot that the Python host goes on from and the firmware refuses |
| I2cPython.NewAssembly | host/python/i2c/protocol.py:38-49 | There is an assembly exactly for a START at offset 0 that fits, and it takes over that slot |
| I2cPython.RxAssembly.constructor | host/python/i2c/protocol.py:45-49 | Takes over the first slot |
| I2cPython.RxAssembly.Push | host/python/i2c/protocol.py:51-71 | The whole new state and result of a further slot |
| I2cPython.ReadPacketPython | host/python/i2c/protocol.py:144-165 | The loop of the Python host over the bytes of each slot, idle and broken ones included |
| I2cPython.PythonReads | host/python/i2c/protocol.py:144-165 | The Python host puts any packet together again from its slots, among idle slots |
| I2cHost.ReceiversAgreeIff | host/i2c_backend.rs:198-243 | On every list of writes in time, broken and idle slots included, the Rust host and the firmware receiver have the same result for every slot up to the first that ends the read, and hold the same packet in between, exactly when no slot up to there is an idle one with a wrong magic, a START that is too long, not at offset 0 or longer than it says, or a continuation that declares more than 4096 bytes or goes beyond the packet, the last two unless they are an END that does not complete the packet |
| I2cHost.SameRead | host/i2c_backend.rs:198-243 | Where they agree, both read the same packet, or refuse, or wait |
| I2cHost.SendersNeverDiverge | src/bridge/i2c_task.rs:298-338 | No slot of any sender is such a slot to a host that has taken in the slots before it |
| I2cHost.HostTakesStartAnywhere | host/i2c_backend.rs:210-217 | A slot at an offset above 0 that the Rust host returns as a packet and the firmware refuses |
| I2cHost.HostOverrunsLength | host/i2c_backend.rs:218-225 | Two slots that bring more than they declare: the Rust host goes on and the firmware refuses |
| I2cTransfer.StageBridgePacket | src/bridge/i2c_task.rs:255-292 | Each kind of bridge packet is staged in its envelope, and any other as an error |
| I2cTransfer.ReplyReachesHost | host/i2c_backend.rs:280-307 | A reply of at most 4092 bytes, among idle slots, is seen by the Rust host as the same payload under the right heading |
| I2cTransfer.RequestReachesFirmware | src/protocol/i2c.rs:44-57 | A request of the Rust host of at most 4092 bytes is understood by the firmware as the same payload under the right heading, through any receiver state |
| I2cRequests.HandleWriteSlot | src/bridge/i2c_task.rs:426-531 | A write by the bus master on the real objects: what receiver, transfer id, transmitter and network mailbox are afterwards, for every slot and every complete packet |
| I2cRequests.ProcessPacket | src/bridge/i2c_task.rs:457-531 | What a complete packet does: it is forwarded, answered as a local command, refused, or ignored |
| I2cRequests.OwnPacketsSeen | host/i2c_backend.rs:280-307 | The Rust host sees an answer as a command and every error message as a failed read |
| I2cReplies.ServeRead | src/bridge/i2c_task.rs:537-564 | A read by the bus master stages the oldest reply if nothing is staged, and spends the next slot, whether or not it reaches the master |
| I2cReplies.RepliesAccountedFor | src/bridge/i2c_task.rs:341-424 | In every run of replies, slot reads, failed reads, writes of any sort and failed transfers: every accepted reply has left the transmitter, is under way, or is queued, in order; the replies the host put together are a subsequence of the accepted ones; and the frames its reads have returned are exactly those of the items it put together, in order and each once |
| I2cReplies.NothingLostIff | src/bridge/i2c_task.rs:404-416 | In every run, no accepted reply is missing exactly when none was under way at a failed read of the host, a failed transfer, a refused write, a local command, or a packet of an unknown kind, nor staged by a read that failed |
| I2cReplies.OnlyRepliesReceived | src/bridge/i2c_task.rs:537-564 | In every run without local commands, whatever fails or is refused, the frames that the reads of the Rust host have returned are accepted replies, in order and each at most once |
| I2cReplies.FailedReadLosesReply | src/bridge/i2c_task.rs:554-564 | For instance: any reply at all, and a first read that fails |
| I2cReplies.ReadAfterFailedRead | host/i2c_backend.rs:226-230 | If that reply has more than one slot, the next read of the host fails as well |
| I2cReplies.LostForGood | src/bridge/i2c_task.rs:239-251 | A reply that is hit in one of these ways is lost, whatever comes after |
| I2cReplies.LocalCommandLosesReply | src/bridge/i2c_task.rs:466-482 | For instance: any reply of more than one slot, one read, and a local command |
| I2cReplies.ReadsExact | host/i2c_backend.rs:198-243 | In every run in which no read fails, the reads of the Rust host return exactly what was given out in full, the answers and errors of the firmware included |
| I2cReplies.RepliesReceivedInOrder | src/bridge/i2c_task.rs:537-564 | In every run in which no read fails and writes are only forwarded, the reads of the Rust host return exactly the accepted replies, in order and each once |
| I2cReplies.RepliesAllArrive | host/i2c_backend.rs:198-243 | From every reachable state, a bounded number of reads that succeed brings the host every queued reply and what is under way, unless it has lost track of that, in order |
| I2cReplies.RepliesArriveExactly | host/i2c_backend.rs:198-243 | If no read has failed before, the reads of the Rust host have then returned exactly that, after what they had returned before |
| I2cMailbox.ExactlyOnceInOrder | src/protocol/i2c_packet.rs:38-79 | In every run of pops, answers, header reads and completed or aborted body reads, the completed bodies are a prefix of the staged packets that lacks at most the one held, every header served announced the body held, and so its unwrapping never failed |
| I2cMailbox.PacketRoundTrip | src/protocol/i2c_packet.rs:13-36 | Every packet with a legal header is read back |
| I2cMailbox.PacketSound | src/protocol/i2c_packet.rs:22-36 | Whatever is accepted is a legal header and exactly its body |
| I2cMailbox.Mailbox.constructor | src/protocol/i2c_packet.rs:44-50 | Empty |
| I2cMailbox.Mailbox.Stage | src/protocol/i2c_packet.rs:54-66 | Exactly when a packet is taken, and that a refused one changes nothing |
| I2cMailbox.Mailbox.HeaderBytes | src/protocol/i2c_packet.rs:67-69 | The header is defined in every reachable state and announces the packet held |
| I2cMailbox.Mailbox.CompleteBody | src/protocol/i2c_packet.rs:73-78 | Only a completed read consumes |
| I2cMailbox.Mailbox.Respond | src/bridge/i2c_task.rs:694-713 | What a read by the bus master is shown, and when it consumes |

## Left out

- The hardware: registers, DMA, pins, executors, LEDs, flash erasure, BOOTSEL.
- TCP connect, accept, handshake, timeouts and keep-alive: a session is a reliable byte stream that may end at any time,
  and then both ends start the next one with a fresh reader and an emptied upload mailbox.
- The stack's reaction to `set_config_v4`: whether it reports a configuration is a free input.
- SPI: frame normalisation and the pull cache are heuristics against electrical faults and have no specification.
- `BytePacketRing` and `uart_step`, which are not part of the firmware.
- The configuration shell and diagnostics; counters are left out.
- LAN discovery, the Python terminals, routers and command-line tools, scripts and the stack-budget checker.
- I2C replies of 4093 to 4096 bytes, which the version 1 envelope cuts off and the version 2 mailbox refuses.
- Memory ordering below critical sections, latched signals and single steps of the cooperative executor.
- Wakers: a future that can go on may be polled at any time, so nothing depends on who wakes it.
- Drivers below the frame reader: the input is any script of chunks, stalls and failures, in place of a driver.
- Drivers below the frame writer: an output takes any nonempty part of a write, or fails.
- AddressProgress.BoundedAcquisition: assumes that requested frames are transmitted before the next tick; with a driver
  that never transmits, the policy retries and claims nothing, as it should.
- I2cReplies.NothingLostIff: a read either brings the host the whole slot or fails there; a slot whose bytes change on
  the bus is not an event.
- BridgePipe.SessionsDeliverPrefixes: the UART transmits what it is given; a packet whose write fails there is lost.
- What a local command is answered with: the answer is any text.
- The delays and deadlines of the hosts' loops.
