# The NDNLPv2 link layer, verified

This project models the link layer of the NDN forwarder (NFD) and the packet code beneath it (ndn-cxx), and
proves what they guarantee. It follows a network-layer packet from the moment the link service accepts it to
the moment the peer hands it up.

The model has five parts.

- **Reliability.** `LinkLayer.LpReliability` is the send window over 64-bit TxSequence numbers: a map ordered
  by key, one pointer to the first unacknowledged fragment, network packets that list their fragments, timers,
  the Ack queue and duplicate suppression. It is proved to compute the list operations of `TxWindow`, where
  transmissions are numbered without wrap-around and the window is a plain list, oldest first. `CyclicKeys` and
  `FragMap` hold the proof of that refinement. `WindowRuns`, `WindowHistory` and `WindowFacts` prove what every run
  of the window keeps and what its counters mean.
- **Fragmentation and the link service.** `Fragmenter`, `Reassembler` and `LinkLayer.GenericLinkService` are the
  source's loops and objects. `LinkSpec`, `SendPath`, `Duplicates` and `Congestion` are the functions they
  compute. `MtuLimits` states the MTU rules by the two options and in octets. `ReassemblyRuns` proves that
  fragmentation followed by reassembly is complete.
- **The whole link.** `LinkRun` joins a sender, a link that loses, reorders and duplicates, and a receiver. Its
  steps are the functions that the methods `SendNetPacket`, `DoReceivePacket`, `ProcessIncomingPacket` and
  `OnRtoTimer` are proved to compute. The end-to-end theorems are stated here. `Delivery` adds that what counts
  as acknowledged has been delivered, `TimedDelivery` derives that from the times of arrival, `OctetRuns` states
  safety over the octets on the link, and `ReceiverFacts` what becomes of each arriving packet.
- **Stream framing.** `StreamTransport` turns chunks of octets into TLV elements in a fixed buffer.
- **Names and Interests.** `CanonicalOrder` covers component and name order. `InterestCodec` is the Interest
  encoding and decoding as functions, `InterestFacts` states what decodes by type numbers, and
  `InterestPacket.Interest` is the mutable object with its cached wire.

`Basics`, `LpPackets` and `Tlv` hold shared types: 64-bit wrap-around (`Key`), the NDNLPv2 packet and its encoded
size, and TLV octets. `LpWire` is the octet encoding of a packet, and proves that the size is its size;
`WireFacts` states what decodes by type numbers and lengths.

The environment is explicit. Time, queue lengths, RTO estimates, the losses of the link and the SHA-256 function
are parameters or arbitrary choices. A `std::length_error` ends a run. Timers are entries that disappear with
their owner.

Where the code does less than one might expect, the exact condition is proved:

- Piggybacked Acks can push a packet over the MTU by up to 2 octets, exactly in the case
  `SendPath.AcksOvershoot` (`SendPath.PiggybackFits`, `SendPath.OvershootHappens`).
- The congestion mark is added after Acks have filled the packet. A packet that would fit, marked, without Acks can
  therefore be dropped over the MTU together with its Acks, exactly in the case `SendPath.Overflows`
  (`SendPath.DroppedExactly`, `SendPath.MarkOverflows`). Acks on such packets count as attached and are lost.
- A partial packet whose octets do not form a packet stays in the reassembler with all slots filled until its
  timer fires (`Reassembler.FullExactlyWhenBad`, `Reassembler.MalformedStaysFull`). `LinkRun.EndToEndSafety` shows
  that a sender of this kind never causes it.
- The memcmp path of `Component::compare` is canonical order exactly for minimal wires
  (`CanonicalOrder.FastPathExactly`, `CanonicalOrder.NotMinimal`), and the other path exactly for lengths that differ
  by less than 2^31 (`CanonicalOrder.SlowPathOrder`, `CanonicalOrder.SlowPathTruncates`).
- An Interest survives encoding and decoding exactly when the elements after ApplicationParameters are plain
  (`InterestCodec.RoundTrip`). The setters and the decoder produce only such Interests.
- After a failed `wireDecode` the rejected wire stays cached (`InterestPacket.Interest.WireDecode`). `wireEncode` leaves
  one exactly when it fails for an empty name, and the next call returns it (`InterestPacket.Interest.WireEncode`,
  `InterestPacket.EncodeTwice`).
- Duplicate suppression needs no condition on the clock (`Duplicates.DuplicateCaught`).

`dafny verify dfyconfig.toml` checks the whole project.

## Model

| member | source | states |
|---|---|---|
| `LinkRun.EndToEndSafety` | kite-NFD/daemon/face/generic-link-service.cpp:146-243 | In every run of sender, lossy, reordering and duplicating link, and receiver, with at most 2^64 Sequences: nothing that arrives is malformed, and every packet handed up has exactly the octets and the headers of one accepted packet; a congestion mark is the original one or 1 |
| `LinkRun.NoFalseAcknowledgement` | kite-NFD/daemon/face/lp-reliability.cpp:115-146 | In every run with at most 2^64 transmissions: a network packet counted in nAcknowledged or nRetransmitted has had some transmission of each of its fragments arrive at the peer |
| `LinkRun.LateAckChangesNothing` | kite-NFD/daemon/face/lp-reliability.cpp:115-121 | In every run with at most 2^64 transmissions: an Ack for a transmission that is no longer in the window (acknowledged, superseded or given up) leaves the whole state as it is |
| `LinkRun.EveryLinkRun` | kite-NFD/daemon/face/generic-link-service.cpp:187-327 | Every run keeps the link invariant: messages have disjoint Sequence ranges, every packet sent is a fragment of an accepted message, partial packets hold fragments of one message and lack one, acknowledged transmissions have arrived |
| `LinkRun.StepLinkInv` | kite-NFD/daemon/face/generic-link-service.cpp:187-327 | Each kind of step (submit, deliver, send Acks, Ack arrives, timeout, partial dropped) keeps the link invariant |
| `LinkRun.SameBase` | kite-NFD/daemon/face/lp-reassembler.cpp:79-84 | With at most 2^64 Sequences in use, two split messages with the same 64-bit message identifier are the same message, across wrap-around |
| `LinkRun.AddGood` | kite-NFD/daemon/face/lp-reassembler.cpp:43-119 | Whatever fragment of whatever accepted message arrives, the reassembler keeps messages apart, reports nothing malformed, and delivers only the octets of the message |
| `LinkRun.ResendInv` | kite-NFD/daemon/face/lp-reliability.cpp:321-347 | Retransmissions renew the TxSequence and keep everything else, so all packets sent are still fragments of accepted messages |
| `LinkRun.AckNames` | kite-NFD/daemon/face/lp-reliability.cpp:115-121 | The TxSequence of the t-th transmission is t modulo 2^64; with at most 2^64 transmissions an Ack finds exactly the transmission it names |
| `LinkRun.FragmentAcked` | kite-NFD/daemon/face/lp-reliability.cpp:363-385 | For each fragment of a network packet counted as acknowledged there is an acknowledged transmission that carries it |
| `LinkRun.WindowKnowsSubmitted` | kite-NFD/daemon/face/generic-link-service.cpp:187-243 | In every run of a reliable link the m-th network packet in the window is the m-th packet submitted, with its Interest flag, and is given up only after maxRetx + 1 transmissions of one of its fragments |
| `Delivery.AcknowledgedIsDelivered` | kite-NFD/daemon/face/lp-reliability.cpp:363-385 | In every run with at most 2^64 Sequences and transmissions, over one endpoint: a network packet counted in nAcknowledged or nRetransmitted has been handed up by the peer with its octets and headers, if the peer accepts that many fragments and no timer dropped the partial packet |
| `Delivery.EveryRunTracked` | kite-NFD/daemon/face/generic-link-service.cpp:290-327 | In every run, duplicate suppression remembers only Sequences that arrived, and each message has been delivered or keeps all its arrived fragments in their slots |
| `Delivery.StepTracked` | kite-NFD/daemon/face/generic-link-service.cpp:290-327 | Every step of the link keeps that |
| `Delivery.DuplicateArrived` | kite-NFD/daemon/face/lp-reliability.cpp:170-173 | A fragment dropped as a duplicate carries a fragment that arrived before, so that nothing is lost |
| `Delivery.SameSequence` | kite-NFD/daemon/face/generic-link-service.cpp:146-152 | Within 2^64 Sequences, equal 64-bit Sequences belong to the same fragment of the same message |
| `Delivery.OnlyOwnFragments` | kite-NFD/daemon/face/lp-reassembler.cpp:79-84 | In every run, whatever can arrive under the identifier of a split message is one of its fragments, as the completeness of reassembly requires |
| `TimedDelivery.TimelyAcknowledgedIsDelivered` | kite-NFD/daemon/face/lp-reassembler.cpp:99-155 | In every run of a reliable link over one endpoint with at most 2^64 Sequences and transmissions, in which drop timers do not fire early: a network packet counted in nAcknowledged or nRetransmitted has been handed up, if the peer accepts that many fragments and no gap between first arrivals of its fragments reaches the reassembly timeout |
| `TimedDelivery.TimedAt` | kite-NFD/daemon/face/lp-reassembler.cpp:99-119 | At every point of such a run the message is delivered, or its slots are exactly the fragments that arrived and its timer runs from the last first arrival |
| `TimedDelivery.NotDropped` | kite-NFD/daemon/face/lp-reassembler.cpp:115-116 | In such a run the drop timer does not fire between the first fragment and delivery |
| `TimedDelivery.NextFirst` | kite-NFD/daemon/face/lp-reassembler.cpp:99-119 | A fragment that is missing and arrives by the end of the run has a next first arrival, with none before it |
| `TimedDelivery.StepTimed` | kite-NFD/daemon/face/generic-link-service.cpp:290-327 | Every step keeps the slots and the timer of an undelivered message exact |
| `OctetRuns.OctetEndToEnd` | kite-NFD/daemon/face/generic-link-service.cpp:290-327 | End-to-end safety over octets: in every run with at most 2^64 Sequences in which the link carries encodings of packets sent, all octets decode, nothing is malformed, and every packet handed up has the octets and headers of one accepted packet |
| `OctetRuns.OctetRunIsRun` | kite-NFD/daemon/face/generic-link-service.cpp:290-327 | Every run over octets is a run over packets of the same length |
| `OctetRuns.DecodesSent` | kite-ndn-cxx/ndn-cxx/lp/packet.cpp:118-171 | The peer decodes exactly the packet that the octets were made of |
| `OctetRuns.ArrivesEncodable` | kite-ndn-cxx/ndn-cxx/lp/packet.cpp:118-171 | Every packet that leaves the sender, with any Acks and mark, is one that the codec restores |
| `WindowHistory.CompleteIsAcked` | kite-NFD/daemon/face/lp-reliability.cpp:374-382 | Each fragment of a network packet counted in nAcknowledged or nRetransmitted has had a transmission acknowledged |
| `WindowHistory.AckHistory` | kite-NFD/daemon/face/lp-reliability.cpp:115-163 | One Ack field: either nothing matches and nothing changes, or exactly the matching transmission is acknowledged; every fragment ever sent remains in the window, acknowledged, or given up; only fragments sent before are sent again |
| `WindowHistory.LoseHistory` | kite-NFD/daemon/face/lp-reliability.cpp:277-361 | A loss keeps the account of every fragment ever sent, and what it retransmits is an earlier packet with a new TxSequence |
| `WindowHistory.OutgoingHistory` | kite-NFD/daemon/face/lp-reliability.cpp:64-104 | A network packet enters the window: its fragments are transmitted in order under consecutive TxSequences |
| `WindowRuns.EveryRun` | kite-NFD/daemon/face/lp-reliability.cpp:64-406 | In every run: the window lies within one lap oldest first, nGreaterSeqAcks is exactly the number of Acks for later transmissions, no fragment is transmitted more than maxRetx + 1 times, network packets are accounted for, and with a threshold of at least 1 no live fragment has reached it |
| `WindowRuns.EachPacketOnce` | kite-NFD/daemon/face/lp-reliability.cpp:297-320 | In every run each network packet is in exactly one of: in flight, nAcknowledged, nRetransmitted, nRetxExhausted; the four add up; dropped Interests are exactly the exhausted Interests, in order, once each |
| `WindowFacts.CountersMean` | kite-NFD/daemon/face/lp-reliability.cpp:64-361 | In every run: the n-th network packet is that of the n-th send with fragments, under the same Interest flag; nRetxExhausted counts a packet only if one of its fragments was transmitted exactly maxRetx + 1 times; nAcknowledged only if none was transmitted again, and nRetransmitted only if one was; onDroppedInterest reports, once and in order, exactly the exhausted packets that were sent as Interests |
| `WindowFacts.RetransmittedFirst` | kite-NFD/daemon/face/lp-reliability.cpp:277-361 | In every run the loss of a fragment transmitted at most maxRetx times, while a TxSequence is free, transmits exactly that fragment again and exhausts nothing; after maxRetx + 1 transmissions it ends the network packet instead |
| `WindowFacts.AckLosesExactly` | kite-NFD/daemon/face/lp-reliability.cpp:115-163 | In every run an Ack for one fragment takes another one out of the window exactly if that one is older and has now been overtaken by lossThreshold Acks, or its network packet has been given up |
| `WindowFacts.AcksAreEvents` | kite-NFD/daemon/face/lp-reliability.cpp:115-163 | The Acks on one packet continue a run of the window by one Ack each, in order |
| `WindowFacts.EveryRunFacts` | kite-NFD/daemon/face/lp-reliability.cpp:64-406 | Every run keeps the account of sends, transmissions per fragment, retransmitted and exhausted packets that these statements rest on |
| `WindowRuns.WindowDrains` | kite-NFD/daemon/face/lp-reliability.cpp:297-358 | Without new packets the number of effective Acks and timeouts is bounded by the sum over live fragments of maxRetx + 1 - retxCount, which is zero exactly when the window is empty |
| `WindowRuns.TimeoutsDrain` | kite-NFD/daemon/face/lp-reliability.cpp:277-361 | From every state of a run with a free TxSequence, timeouts alone can empty the window |
| `WindowRuns.AcksDrain` | kite-NFD/daemon/face/lp-reliability.cpp:115-163 | From every state of a run, full window included, Acks can empty the window |
| `WindowRuns.OldestTimeout` | kite-NFD/daemon/face/lp-reliability.cpp:277-361 | While a TxSequence is free, the timeout of the oldest fragment takes effect without length_error and leaves a TxSequence free |
| `WindowRuns.StepRunInv` | kite-NFD/daemon/face/lp-reliability.cpp:64-406 | Every send, Ack and timeout keeps the invariants of the run |
| `WindowRuns.AckNotLost` | kite-NFD/daemon/face/lp-reliability.cpp:139-162 | After an Ack has been processed no live fragment has reached the loss threshold |
| `WindowRuns.LoseMeasure` | kite-NFD/daemon/face/lp-reliability.cpp:277-361 | Every loss strictly decreases the measure |
| `WindowRuns.AckMeasure` | kite-NFD/daemon/face/lp-reliability.cpp:115-163 | Every Ack that matches strictly decreases the measure, including all losses it causes |
| `WindowRuns.OutgoingRunInv` | kite-NFD/daemon/face/lp-reliability.cpp:64-104 | handleOutgoing keeps all invariants of the run |
| `WindowRuns.AckRunInv` | kite-NFD/daemon/face/lp-reliability.cpp:115-163 | An Ack with its batch of losses keeps all invariants of the run |
| `WindowRuns.LoseRunInv` | kite-NFD/daemon/face/lp-reliability.cpp:277-361 | A loss keeps all invariants of the run |
| `Basics.KeyIsRemainder` | kite-NFD/daemon/face/lp-reliability.cpp:227-228 | The 64-bit number of the n-th transmission is n modulo 2^64 |
| `CyclicKeys.NextKeyFree` | kite-NFD/daemon/face/lp-reliability.cpp:224-233 | The single equality test against the first unacknowledged key is true exactly when no TxSequence is free; otherwise the next TxSequence is not in use |
| `CyclicKeys.CyclicAfterIsNext` | kite-NFD/daemon/face/lp-reliability.cpp:255-262 | Walking the map in key order with wrap-around from any live key visits the window oldest first |
| `CyclicKeys.FirstErased` | kite-NFD/daemon/face/lp-reliability.cpp:387-406 | After any erasure the pointer is again the cyclically oldest live key |
| `CyclicKeys.EraseMatches` | kite-NFD/daemon/face/lp-reliability.cpp:387-406 | Erasing a key removes exactly that transmission from the window |
| `FragMap.Acknowledged` | kite-NFD/daemon/face/lp-reliability.cpp:363-385 | Removing an acknowledged fragment keeps map, pointer, two-way ownership and timers in step with the window, and its list is empty exactly when the network packet is complete |
| `FragMap.GivenUp` | kite-NFD/daemon/face/lp-reliability.cpp:297-320 | Giving up removes exactly the fragments of the network packet, and map, pointer, ownership and timers stay in step |
| `FragMap.Resent` | kite-NFD/daemon/face/lp-reliability.cpp:321-344 | Moving a fragment to its new TxSequence never collides, and keeps map, pointer and ownership in step with the window |
| `FragMap.Sent` | kite-NFD/daemon/face/lp-reliability.cpp:75-103 | A first transmission never collides, and keeps map, pointer, ownership and timers in step with the window |
| `FragMap.BumpOne` | kite-NFD/daemon/face/lp-reliability.cpp:264-271 | Counting an overtaking Ack for the j-th oldest fragment is counting it in the window |
| `LinkLayer.LpReliability.constructor` | kite-NFD/daemon/face/lp-reliability.cpp:36-44 | The first TxSequence will be 0; the window is empty and all invariants hold |
| `LinkLayer.LpReliability.HandleOutgoing` | kite-NFD/daemon/face/lp-reliability.cpp:64-104 | Computes the window operation on unbounded counters; fragments leave with consecutive TxSequences; length_error exactly when the window is a full lap long. What the recorded packet and Interest flag are in every run is WindowFacts.CountersMean |
| `LinkLayer.LpReliability.TransmitFrag` | kite-NFD/daemon/face/lp-reliability.cpp:75-103 | One fragment enters the map, the pointer and its network packet as it enters the window |
| `LinkLayer.LpReliability.InsertFrag` | kite-NFD/daemon/face/lp-reliability.cpp:84-103 | The map gains one entry with its timer, the pointer changes exactly if the map was empty, and the network packet lists the entry last |
| `LinkLayer.LpReliability.AssignTxSequence` | kite-NFD/daemon/face/lp-reliability.cpp:224-233 | Throws exactly when no TxSequence is free; otherwise the new one collides with none in use |
| `LinkLayer.LpReliability.ProcessIncomingPacket` | kite-NFD/daemon/face/lp-reliability.cpp:106-190 | Acks act on the window as specified, retransmissions are passed to sendLpPacket, a TxSequence on a fragment joins the received ones, which always equal the Acks attached so far followed by the queue, and duplicates are reported as specified |
| `LinkLayer.LpReliability.ProcessAcks` | kite-NFD/daemon/face/lp-reliability.cpp:115-163 | The Ack loop computes the window operation Ack by Ack |
| `LinkLayer.LpReliability.ProcessAck` | kite-NFD/daemon/face/lp-reliability.cpp:116-162 | One Ack computes the window operation: overtaking, acknowledgement and the batch of losses |
| `LinkLayer.LpReliability.LoseAll` | kite-NFD/daemon/face/lp-reliability.cpp:148-162 | The batch of losses skips exactly the fragments already removed by it, so each onLpPacketLost meets its assertion |
| `LinkLayer.LpReliability.FindLostLpPackets` | kite-NFD/daemon/face/lp-reliability.cpp:250-275 | Terminates, counts exactly the live fragments cyclically before the acknowledged one, and returns those that reached the threshold, oldest first |
| `LinkLayer.LpReliability.CountOvertaking` | kite-NFD/daemon/face/lp-reliability.cpp:264-271 | Counts one overtaking Ack for the j-th oldest fragment and tells whether it reached the threshold |
| `LinkLayer.LpReliability.OnLpPacketLost` | kite-NFD/daemon/face/lp-reliability.cpp:277-361 | Computes the window operation; the fragment is found, and the returned TxSequences are exactly those that left. When that is a retransmission and when the end of the network packet, by the number of transmissions, is WindowFacts.RetransmittedFirst |
| `LinkLayer.LpReliability.GiveUp` | kite-NFD/daemon/face/lp-reliability.cpp:297-320 | All fragments of the network packet leave, nRetxExhausted grows by one, and onDroppedInterest reports exactly Interests |
| `LinkLayer.LpReliability.DeleteOthers` | kite-NFD/daemon/face/lp-reliability.cpp:300-306 | Deletes exactly the other fragments of the network packet while the list of iterators stays valid |
| `LinkLayer.LpReliability.Renumber` | kite-NFD/daemon/face/lp-reliability.cpp:321-344 | The fragment moves to a free TxSequence in the map and in the list of its network packet |
| `LinkLayer.LpReliability.Resend` | kite-NFD/daemon/face/lp-reliability.cpp:321-358 | The fragment becomes the newest transmission, is sent with its new TxSequence, and gets a timer of its own |
| `LinkLayer.LpReliability.OnLpPacketAcknowledged` | kite-NFD/daemon/face/lp-reliability.cpp:363-385 | Computes the window operation; the counters count the network packet when its last fragment is acknowledged |
| `LinkLayer.LpReliability.DeleteUnackedFrag` | kite-NFD/daemon/face/lp-reliability.cpp:387-406 | Erases one key and moves the pointer only if that key was the first |
| `LinkLayer.LpReliability.OnRtoTimer` | kite-NFD/daemon/face/lp-reliability.cpp:92-94 | A timeout reports a TxSequence still in use, and computes the loss of exactly that fragment |
| `LinkLayer.LpReliability.Piggyback` | kite-NFD/daemon/face/lp-reliability.cpp:192-222 | Moves a prefix of the queue onto the packet, as many Acks as the computed space allows |
| `LinkLayer.LpReliability.OnIdleAckTimer` | kite-NFD/daemon/face/lp-reliability.cpp:235-248 | For an MTU of at least 16 the loop terminates with an empty queue and every received TxSequence attached to some packet; the Acks reach the transport exactly if no packet is counted in nOutOverMtu meanwhile, which is never without marking and for an MTU below 65536 |
| `LinkLayer.LpReliability.SendIdle` | kite-NFD/daemon/face/lp-reliability.cpp:244-246 | One IDLE packet takes at least one Ack, and its Acks are sent or lost with it |
| `LinkLayer.LpReliability.CheckRecent` | kite-NFD/daemon/face/lp-reliability.cpp:170-184 | The purge loop and the insertion compute the specified record and verdict |
| `Duplicates.RecordQueued` | kite-NFD/daemon/face/lp-reliability.cpp:177-183 | In every run each remembered Sequence occurs in the queue, despite repeated pushes and insertions by operator[], and was received before |
| `Duplicates.DuplicateCaught` | kite-NFD/daemon/face/lp-reliability.cpp:170-184 | A Sequence reported new and seen again no later than every RTO used in between is reported as a duplicate; no condition on the clock is needed |
| `Duplicates.NoFalseDuplicate` | kite-NFD/daemon/face/lp-reliability.cpp:173 | A Sequence reported as a duplicate was received before |
| `Duplicates.PurgeForgets` | kite-NFD/daemon/face/lp-reliability.cpp:177-181 | Entries that operator[] creates while purging are erased in the same round |
| `Duplicates.ForgottenIsNew` | kite-NFD/daemon/face/lp-reliability.cpp:170-184 | A Sequence is reported as new when it comes again after an arrival that found it, and all that was queued before it, older than one RTO |
| `Duplicates.RecordIsLast` | kite-NFD/daemon/face/lp-reliability.cpp:177-184 | In every run the queue holds the Sequences of the last arrivals in order, and each recorded time is that of an arrival of the Sequence |
| `SendPath.PiggybackFits` | kite-NFD/daemon/face/lp-reliability.cpp:198-221 | For every MTU below 65536 a packet that fits still fits with its piggybacked Acks, except exactly for sizes 253 and 254 filled to the last octets; then it exceeds the MTU by at most 2 |
| `SendPath.OvershootHappens` | kite-NFD/daemon/face/lp-reliability.cpp:198-221 | The bound does fail: a packet of 253 octets, an MTU of 265 and one Ack |
| `SendPath.DroppedExactly` | kite-NFD/daemon/face/generic-link-service.cpp:98-112 | A packet with its Acks and possibly a mark is dropped exactly when its size, computed from the packet, the MTU and the queue length, exceeds the MTU: the mark comes after the Acks have taken the space |
| `SendPath.MarkOverflows` | kite-NFD/daemon/face/generic-link-service.cpp:98-112 | Such a packet: an IDLE packet with one Ack and a mark has 19 octets for an MTU of 16 |
| `SendPath.IdleFits` | kite-NFD/daemon/face/lp-reliability.cpp:198-221 | An IDLE packet without a mark never exceeds an MTU below 65536 |
| `SendPath.AcksSplit` | kite-NFD/daemon/face/generic-link-service.cpp:98-112 | Every attached Ack is on exactly one packet, which reached the transport or was dropped over the MTU |
| `SendPath.IdleCarriesAck` | kite-NFD/daemon/face/lp-reliability.cpp:202-214 | An IDLE packet can carry an Ack exactly when the MTU is unlimited or at least 16 |
| `SendPath.Interval` | kite-NFD/daemon/face/generic-link-service.cpp:272-275 | The interval is base / sqrt(n) rounded down, characterised by squares |
| `Congestion.MarkingSchedule` | kite-NFD/daemon/face/generic-link-service.cpp:245-288 | In every run of checks: outside an incident no mark is counted; in an incident that began at t0 the next mark is due at t0 plus the intervals base / sqrt(k) so far, and the n-th mark comes no earlier than t0 plus the first n of them |
| `Congestion.MarkedExactlyWhenDue` | kite-NFD/daemon/face/generic-link-service.cpp:258-276 | In every run a reading marks the packet exactly when it is available, above the threshold, in an incident, and the next mark of the schedule is due |
| `Congestion.IncidentExtent` | kite-NFD/daemon/face/generic-link-service.cpp:248-287 | In every run an incident begins with the first reading above the threshold and ends with the first available one that is not; unavailable readings change nothing |
| `SendPath.AcksAttached` | kite-NFD/daemon/face/lp-reliability.cpp:198-221 | As many Acks as fit the space that the source computes, and not one fewer |
| `LinkSpec.AllBudget` | kite-NFD/daemon/face/generic-link-service.cpp:187-243 | MTU budget: with fragmentation and an effective MTU of at least 24, every fragment with its Sequence, TxSequence and a possible congestion mark encodes within the MTU |
| `LinkSpec.Budget` | kite-NFD/daemon/face/generic-link-service.cpp:193-200 | The MTU budget of one fragment |
| `LinkSpec.NotIndexed` | kite-NFD/daemon/face/generic-link-service.cpp:223-228 | A packet that is not split carries neither FragIndex nor FragCount, and no fragment has a Sequence or TxSequence yet |
| `LinkSpec.TooLargeExactly` | kite-NFD/daemon/face/generic-link-service.cpp:65-70 | A packet is over the effective MTU exactly if the transport has a limit and the packet exceeds that limit or the override |
| `LinkSpec.SplitNumbers` | kite-NFD/daemon/face/generic-link-service.cpp:190-216 | The space for fragments is the smaller of the two limits less 12 octets each for reliability and marking; splitting fails exactly if the packet does not stay whole and 51 octets with its headers do not fit, or too many fragments are needed |
| `LinkSpec.OutgoingNumbers` | kite-NFD/daemon/face/generic-link-service.cpp:146-152 | Without reliability a whole packet is sent as it is; otherwise the i-th fragment has the next Sequence modulo 2^64 counted from 2^64 - 1, and the next TxSequence modulo 2^64 exactly if reliability is on; nothing else changes |
| `MtuLimits.LimitsHold` | kite-NFD/daemon/face/generic-link-service.cpp:93-113 | Whatever is on the wire of a limited transport has no more octets than the override and no more than the limit; every packet within both as it leaves is on the wire; an unlimited transport drops nothing, whatever the override; something is dropped exactly if some packet exceeds a limit as it leaves |
| `MtuLimits.WireIsWithinLimits` | kite-NFD/daemon/face/generic-link-service.cpp:106-112 | Of the packets as they leave, exactly those within both limits in octets are on the wire |
| `MtuLimits.UnlimitedKeepsAll` | kite-NFD/daemon/face/generic-link-service.cpp:65-70 | On an unlimited transport every packet is on the wire in its place |
| `MtuLimits.UnlimitedAcks` | kite-NFD/daemon/face/lp-reliability.cpp:198-203 | On an unlimited transport as many Acks are attached as for an MTU of 8800 |
| `LinkLayer.GenericLinkService.constructor` | kite-NFD/daemon/face/generic-link-service.cpp:42-55 | The Sequence counter starts at -2; the whole link service is ready |
| `LinkLayer.GenericLinkService.SendNetPacket` | kite-NFD/daemon/face/generic-link-service.cpp:187-243 | Fails exactly when fragmentation fails and then changes only the error counter; otherwise passes on the packet or its fragments, numbered without gaps. With fragmentation and both limits at least 24 the packet stays whole exactly if 30 octets, 12 for reliability and 12 for marking fit beside it under both limits; with no Acks waiting everything then reaches the transport, at most with a mark added |
| `LinkLayer.GenericLinkService.SendFragments` | kite-NFD/daemon/face/generic-link-service.cpp:230-242 | Sequences if and only if reliability is on or there are several fragments; the window admits them; all are passed to sendLpPacket in order |
| `LinkLayer.GenericLinkService.MakeFragments` | kite-NFD/daemon/face/generic-link-service.cpp:190-221 | The packet is split within both limits less the reserved space; it stays whole exactly if it and 30 octets fit there, without fragmentation, or on an unlimited transport |
| `LinkLayer.GenericLinkService.SendAll` | kite-NFD/daemon/face/generic-link-service.cpp:240-242 | Every fragment is passed to sendLpPacket in order; if all fit and no Acks wait, all reach the transport |
| `LinkLayer.GenericLinkService.AssignSequences` | kite-NFD/daemon/face/generic-link-service.cpp:146-152 | Consecutive Sequences modulo 2^64, the first one being 2^64 - 1 |
| `LinkLayer.GenericLinkService.SendLpPacket` | kite-NFD/daemon/face/generic-link-service.cpp:93-113 | The packet gets a prefix of the Ack queue, and a mark exactly if one check says so. It is sent exactly if the transport is unlimited or it then exceeds neither the override nor the limit of the transport; else it is counted in nOutOverMtu with the Acks on it. Wire, counters and attached Acks agree with what was passed |
| `LinkLayer.GenericLinkService.RequestIdlePacket` | kite-NFD/daemon/face/generic-link-service.cpp:84-91 | An empty packet takes as many Acks as fit, and reaches the transport exactly if it then does not overflow the MTU; otherwise it is counted in nOutOverMtu and its Acks are lost |
| `LinkLayer.GenericLinkService.CheckCongestionLevel` | kite-NFD/daemon/face/generic-link-service.cpp:245-288 | Computes the marking state and the mark that the schedule theorem is about |
| `LinkLayer.GenericLinkService.MarkIfCongested` | kite-NFD/daemon/face/generic-link-service.cpp:102-104 | One check at some reading of the queue decides the mark and the new marking state, only if marking is allowed |
| `LinkLayer.GenericLinkService.DoReceivePacket` | kite-NFD/daemon/face/generic-link-service.cpp:290-327 | Acks act on the window, retransmissions are passed to sendLpPacket in order, fragments are reassembled, exactly the completed packets are handed up, and duplicates and malformed packets are counted. Without a Fragment, or with an index or count while reassembly is off, nothing is handed up, counted as malformed or collected. What each packet leads to, case by case, is ReceiverFacts |
| `LinkLayer.GenericLinkService.ReceivePayload` | kite-NFD/daemon/face/generic-link-service.cpp:304-320 | Without a Fragment, or with an index or count while reassembly is off, nothing changes; otherwise the reassembler takes the packet, what it completes is handed up, and what it finds malformed is counted |
| `ReceiverFacts.DroppedWhen` | kite-NFD/daemon/face/generic-link-service.cpp:295-313 | A packet is dropped exactly if it is a duplicate, has no Fragment, has an index or count while reassembly is off, has an index not below its count, has a count above the maximum, is a fragment without Sequence, or finds a partial packet with another count or its slot filled; dropping changes no partial packet |
| `ReceiverFacts.WholeWhen` | kite-NFD/daemon/face/lp-reassembler.cpp:62-70 | A whole packet that is not dropped is handed up exactly if its payload starts with a TLV element, which is what is handed up; otherwise it is malformed |
| `ReceiverFacts.FragmentWhen` | kite-NFD/daemon/face/lp-reassembler.cpp:72-119 | A fragment that is not dropped fills its slot; it is stored, with a new timer, exactly if slots are left; else the packet is handed up and forgotten exactly if every slot carries octets and together they start with a TLV element, which is what is handed up with the first fragment |
| `ReceiverFacts.NoReassembly` | kite-NFD/daemon/face/generic-link-service.cpp:309-313 | In every run with a receiver that does not reassemble, nothing is collected and every arriving packet with FragIndex or FragCount is dropped |
| `ReceiverFacts.RecentIsRecord` | kite-NFD/daemon/face/lp-reliability.cpp:165-187 | In every run the record of received Sequences is that of exactly the arrivals with Fragment, TxSequence and Sequence, in order; without reliability there is none |
| `ReceiverFacts.DuplicateInRun` | kite-NFD/daemon/face/lp-reliability.cpp:170-173 | In every run the next such packet is dropped as a duplicate exactly if the record of those arrivals reports one, so that the statements about records apply to runs |
| `Fragmenter.FragmentPacket` | kite-NFD/daemon/face/lp-fragmenter.cpp:78-143 | Fails exactly for an MTU too small or too many fragments; the fast path returns the packet; otherwise the computed number of fragments, at least two, non-empty and numbered, whose payloads join to the original, headers on the first only, all within the MTU; every fragment but the last is as large as the MTU less 50 octets, and less its headers for the first, allows |
| `Fragmenter.FillFragments` | kite-NFD/daemon/face/lp-fragmenter.cpp:123-140 | The loop fills exactly the computed number of fragments, all but the last to the full size |
| `Fragmenter.CountIsExact` | kite-NFD/daemon/face/lp-fragmenter.cpp:112-115 | The computed fragment count is exactly the number of pieces needed |
| `Fragmenter.SlowPathSplits` | kite-NFD/daemon/face/lp-fragmenter.cpp:85-112 | A packet that leaves the fast path does not fit into one fragment, because its TLV overhead is at most 20 octets |
| `Fragmenter.PieceFits` | kite-NFD/daemon/face/lp-fragmenter.cpp:50-58 | The overhead constant covers every fragment with its Sequence |
| `Fragmenter.FastPathFits` | kite-NFD/daemon/face/lp-fragmenter.cpp:42-48 | The single-fragment overhead constant covers a Sequence and the larger LpPacket TLV |
| `Fragmenter.OverheadsAttained` | kite-NFD/daemon/face/lp-fragmenter.cpp:42-58 | Both overhead constants are attained by some packet, so that no smaller ones would do |
| `Reassembler.LpReassembler.ReceiveFragment` | kite-NFD/daemon/face/lp-reassembler.cpp:43-119 | Computes the specified step on the partial packets with all its drop and error cases, and keeps their invariant |
| `Reassembler.LpReassembler.DoReassembly` | kite-NFD/daemon/face/lp-reassembler.cpp:121-143 | The copy loop yields the first TLV element of the joined payloads, or an error exactly when a Fragment is empty or nothing can be read |
| `Reassembler.LpReassembler.PayloadSize` | kite-NFD/daemon/face/lp-reassembler.cpp:126-131 | The sum of payload sizes, or an error for an empty Fragment |
| `Reassembler.LpReassembler.FillBuffer` | kite-NFD/daemon/face/lp-reassembler.cpp:133-140 | The buffer holds the payloads one after the other, without overrun |
| `Reassembler.LpReassembler.TimeoutPartialPacket` | kite-NFD/daemon/face/lp-reassembler.cpp:145-155 | Removes the partial packet and reports the number of fragments it held |
| `Reassembler.StepInv` | kite-NFD/daemon/face/lp-reassembler.cpp:87-119 | Every arrival and timeout keeps: nReceivedFragments is the number of filled slots, each slot holds its own fragment, a drop timer is set |
| `Reassembler.FullExactlyWhenBad` | kite-NFD/daemon/face/lp-reassembler.cpp:107-119 | A partial packet lacks some fragment after every step, unless it was full before or its last missing fragment just arrived and the octets do not form a packet |
| `Reassembler.MalformedStaysFull` | kite-NFD/daemon/face/lp-reassembler.cpp:107-113 | Such a step exists: a partial packet can stay with all its slots filled |
| `ReassemblyRuns.Completeness` | kite-NFD/daemon/face/lp-reassembler.cpp:43-155 | For every order of arrivals with repeats and interleaving: when the last missing fragment arrives, and no gap between new fragments reached the timeout, the original octets are delivered with the first header, and nothing of the message is kept |
| `ReassemblyRuns.FragmentOf` | kite-NFD/daemon/face/lp-reassembler.cpp:79-84 | The wrap-around subtraction recovers the message identifier from every fragment |
| `ReassemblyRuns.CollectedGivesPacket` | kite-NFD/daemon/face/lp-reassembler.cpp:121-143 | Fragments in their slots reassemble to the original octets, whatever Acks, marks and TxSequences they carry |
| `ReassemblyRuns.NeverLate` | kite-NFD/daemon/face/lp-reassembler.cpp:115-116 | If no gap between new fragments reaches the timeout, the drop timer cannot fire before the last one |
| `ReassemblyRuns.OneMore` | kite-NFD/daemon/face/lp-reassembler.cpp:99-119 | A new fragment is stored, or completes and delivers the message |
| `StreamTransport.ChunkingInvariance` | kite-NFD/daemon/face/stream-transport.hpp:236-280 | For every split of the stream into chunks: the elements delivered are those of the bytes so far, the buffer holds exactly the unparsed rest, and the transport fails exactly when that rest fills the buffer, which is at 8800 octets |
| `StreamTransport.GoodStreamNeverFails` | kite-NFD/daemon/face/stream-transport.hpp:236-280 | For every stream of elements of at most 8800 octets and every split of it: exactly the complete elements are delivered, room is left in the buffer, and FAILED is never reached |
| `StreamTransport.GoodStream` | kite-NFD/daemon/face/stream-transport.hpp:250-260 | Any prefix of such a stream parses into the elements wholly within it |
| `StreamTransport.FramesExactly` | kite-NFD/daemon/face/stream-transport.hpp:246-260 | Any octets are the elements found, one after the other, followed by a rest that does not start with an element |
| `StreamTransport.OneDivision` | kite-NFD/daemon/face/stream-transport.hpp:246-260 | No other division of the octets into elements and such a rest exists |
| `StreamTransport.StreamTransport.HandleReceive` | kite-NFD/daemon/face/stream-transport.hpp:236-280 | Working in place on the buffer computes the specified step |
| `StreamTransport.StreamTransport.ParseAll` | kite-NFD/daemon/face/stream-transport.hpp:248-260 | The loop delivers all complete elements and stops at the unparsed rest |
| `StreamTransport.StreamTransport.MoveToFront` | kite-NFD/daemon/face/stream-transport.hpp:271-272 | The overlapping copy moves the rest to the front unchanged |
| `CanonicalOrder.WireOrder` | kite-ndn-cxx/ndn-cxx/name-component.cpp:473-482 | Comparing minimal wires with memcmp over the shorter one has the sign of comparing type, length and value, and is zero only for equal components |
| `CanonicalOrder.FastPathExactly` | kite-ndn-cxx/ndn-cxx/name-component.cpp:476-482 | On a received wire the fast path is canonical order against all components exactly when the wire is minimal |
| `CanonicalOrder.NotMinimal` | kite-ndn-cxx/ndn-cxx/encoding/tlv.hpp:394-409 | The decoder accepts a wire that is not minimal; the fast path then tells equal components apart |
| `CanonicalOrder.SlowPathOrder` | kite-ndn-cxx/ndn-cxx/name-component.cpp:484-495 | The slow path agrees with canonical order exactly unless types are equal and lengths differ by 2^31 or more; it is zero only for equal components |
| `CanonicalOrder.SlowPathTruncates` | kite-ndn-cxx/ndn-cxx/name-component.cpp:488-490 | It does disagree: a value of 2^31 octets compares as less than an empty one |
| `CanonicalOrder.CanonicalOrder` | kite-ndn-cxx/ndn-cxx/name-component.cpp:473-496 | Canonical order of components is total, antisymmetric and transitive |
| `CanonicalOrder.NameTotalOrder` | kite-ndn-cxx/ndn-cxx/name.cpp:329-344 | Comparison of names is zero exactly for equal names, and antisymmetric |
| `CanonicalOrder.NameTransitive` | kite-ndn-cxx/ndn-cxx/name.cpp:329-344 | Comparison of names is transitive |
| `CanonicalOrder.PrefixContiguous` | kite-ndn-cxx/ndn-cxx/name.cpp:299-344 | Names that share a prefix are contiguous in the order |
| `CanonicalOrder.PrefixFirst` | kite-ndn-cxx/ndn-cxx/name.cpp:299-344 | A name comes no later than every name it is a prefix of |
| `CanonicalOrder.CanonicalExactly` | kite-ndn-cxx/ndn-cxx/name-component.cpp:473-496 | A component comes before another exactly if its type is smaller, or the type is the same and it has fewer octets, or as many and the first octet that differs is smaller |
| `CanonicalOrder.NameOrderExactly` | kite-ndn-cxx/ndn-cxx/name.cpp:329-344 | A name comes before another exactly if it is a proper prefix of it or the first component that differs comes before |
| `CanonicalOrder.Compare` | kite-ndn-cxx/ndn-cxx/name.cpp:329-344 | The loop over two parts of names computes the comparison of these parts, by either path of each component and with the counts converted to int |
| `CanonicalOrder.HeldNameOrder` | kite-ndn-cxx/ndn-cxx/name.cpp:329-344 | For components with minimal wires or none, below 2 GiB, that comparison is canonical order exactly unless one name is a prefix of the other and longer by 2^31 components or more |
| `CanonicalOrder.OrdinaryCompare` | kite-ndn-cxx/ndn-cxx/name-component.cpp:473-496 | For such components both paths of the comparison have the sign of canonical order |
| `CanonicalOrder.IsPrefixOf` | kite-ndn-cxx/ndn-cxx/name.cpp:299-313 | The loop decides the prefix relation |
| `CanonicalOrder.NameCountTruncates` | kite-ndn-cxx/ndn-cxx/name.cpp:343 | It does disagree: 2^31 components compare as less than none |
| `Tlv.VarRoundTrip` | kite-ndn-cxx/ndn-cxx/encoding/tlv.hpp:394-409 | Reading a VAR-NUMBER gives back the number that was written, whatever follows |
| `Tlv.ReadEncoded` | kite-ndn-cxx/ndn-cxx/encoding/block.cpp:324-348 | Reading an element gives back the type and value that were written, whatever follows |
| `Tlv.ParseEncoded` | kite-ndn-cxx/ndn-cxx/encoding/block.cpp:324-348 | Parsing the encoding of a list of elements gives back the list |
| `Tlv.PrefixIncomplete` | kite-ndn-cxx/ndn-cxx/encoding/tlv.hpp:394-423 | Nothing can be read from a proper prefix of a complete element |
| `Tlv.PrefixReads` | kite-ndn-cxx/ndn-cxx/encoding/tlv.hpp:394-423 | An element reads the same without what follows it |
| `Tlv.IllegalTypes` | kite-ndn-cxx/ndn-cxx/encoding/tlv.hpp:411-423 | A type of 0 or of 2^32 and more is never read |
| `Tlv.CutShort` | kite-ndn-cxx/ndn-cxx/encoding/block.cpp:324-348 | An element whose value is shorter than its length says is not read |
| `Tlv.NniRoundTrip` | kite-ndn-cxx/ndn-cxx/encoding/tlv.hpp:491-512 | Reading a NonNegativeInteger gives back the number that was written |
| `LpWire.EncodedSize` | kite-ndn-cxx/ndn-cxx/lp/packet.cpp:118-130 | The size function of all MTU results is the number of octets of the encoding |
| `LpWire.PacketRoundTrip` | kite-ndn-cxx/ndn-cxx/lp/packet.cpp:118-171 | Decoding the encoding of a packet restores every field; a bare Interest or Data becomes a packet with only a Fragment |
| `LpWire.CheckOrder` | kite-ndn-cxx/ndn-cxx/lp/packet.cpp:147-168 | The loop accepts exactly the element lists in sort order, with repeats of Ack only and nothing unknown that may not be ignored |
| `LpWire.OctetsOnWire` | kite-NFD/daemon/face/generic-link-service.cpp:106-112 | Whatever reaches a transport of limited MTU has at most that many octets |
| `LpWire.VarOctets` | kite-ndn-cxx/ndn-cxx/encoding/tlv.hpp:454-459 | The size of a VAR-NUMBER is the number of octets of its encoding |
| `WireFacts.DecodesExactly` | kite-ndn-cxx/ndn-cxx/lp/packet.cpp:132-171 | Exactly these octets decode: one element that is an Interest (5), a Data (6), or an LpPacket (100) whose elements have accepted types, stand in order and have readable values; a bare Interest or Data becomes the Fragment |
| `WireFacts.AcceptedTypes` | kite-ndn-cxx/ndn-cxx/lp/packet.cpp:88-98 | Accepted are the types 80 to 83, 98 and the multiples of 4 from 800 to 956; of these 31, listed by number, are unknown and ignored |
| `WireFacts.OrderExactly` | kite-ndn-cxx/ndn-cxx/lp/packet.cpp:147-168 | The test of adjacent elements holds exactly if all types increase with Fragment last, except that Ack repeats |
| `WireFacts.FieldsExactly` | kite-ndn-cxx/ndn-cxx/lp/packet.cpp:147-168 | Fields are readable exactly if Sequence, Ack and TxSequence have 8 octets, FragIndex, FragCount and CongestionMark 1, 2, 4 or 8, and Fragment is not empty; each field then is the number its element holds, and the Acks are in order |
| `InterestCodec.RoundTrip` | kite-ndn-cxx/ndn-cxx/interest.cpp:58-312 | For every Interest with a non-empty name and a valid parameters digest: decoding the encoding restores every field if and only if the elements after ApplicationParameters are non-critical and neither HopLimit nor ApplicationParameters |
| `InterestCodec.TailDecode` | kite-ndn-cxx/ndn-cxx/interest.cpp:285-306 | Elements after ApplicationParameters are all kept exactly when all are plain; otherwise decoding fails or loses some |
| `InterestCodec.OptionalsDecode` | kite-ndn-cxx/ndn-cxx/interest.cpp:191-284 | The optional elements restore every other field, defaults included |
| `InterestCodec.LifetimeRoundTrip` | kite-ndn-cxx/ndn-cxx/interest.cpp:96-100 | Every signed 64-bit lifetime survives encoding and decoding |
| `InterestFacts.InterestExactly` | kite-ndn-cxx/ndn-cxx/interest.cpp:149-312 | Exactly these wires decode: an Interest (5) that starts with a Name (7) of at least one component and at most one digest component, each further element accepted, and the digest component present exactly with parameters and equal to their hash; each field then has the value of the element taken for it, or its default |
| `InterestFacts.ElementsExactly` | kite-ndn-cxx/ndn-cxx/interest.cpp:191-307 | An unknown element is accepted exactly if its type is even and above 31; CanBePrefix, MustBeFresh, ForwardingHint, Nonce and InterestLifetime exactly if nothing of their place or a later one came before and their shape is right; HopLimit and ApplicationParameters out of order are passed over |
| `InterestFacts.ElementsShow` | kite-ndn-cxx/ndn-cxx/interest.cpp:193-284 | Each field has the value of the one element taken for it, the lifetime as a signed number, or stays as it was |
| `InterestFacts.ElementsParameters` | kite-ndn-cxx/ndn-cxx/interest.cpp:285-306 | The parameters are the first ApplicationParameters and all unknown elements after it |
| `InterestFacts.HintExactly` | kite-ndn-cxx/ndn-cxx/interest.cpp:220-251 | A ForwardingHint is accepted exactly if each Name in it parses, each old-format Delegation (31) holds a Name whose first one parses, and nothing else in it is critical; it yields these names in order |
| `InterestPacket.DecodedValid` | kite-ndn-cxx/ndn-cxx/interest.cpp:149-312 | Every Interest that decodes satisfies what the setters guarantee |
| `InterestCodec.DigestPositionsMean` | kite-ndn-cxx/ndn-cxx/interest.cpp:736-748 | No digest component means no component of type 2 with 32 octets, and at most one means no two of them |
| `InterestPacket.EmptyNameRejected` | kite-ndn-cxx/ndn-cxx/interest.cpp:175-177 | The encoding of an Interest with an empty name is rejected by the decoder |
| `InterestPacket.Interest.constructor` | kite-ndn-cxx/ndn-cxx/interest.hpp:490-506 | An Interest with an empty name and default fields is valid |
| `InterestPacket.Interest.Create` | kite-ndn-cxx/ndn-cxx/interest.cpp:45-49 | Rejects exactly names with several digest components and negative lifetimes; otherwise all other fields have their defaults |
| `InterestPacket.Interest.WireDecode` | kite-ndn-cxx/ndn-cxx/interest.cpp:149-312 | Succeeds exactly on wires that decode, and then holds their fields; after a failure the rejected wire stays cached, the fields are unchanged unless the wire starts with a valid name, and there is never more than one digest component |
| `InterestPacket.Interest.DecodeFields` | kite-ndn-cxx/ndn-cxx/interest.cpp:191-307 | The loop over the elements computes the specified decoding |
| `InterestPacket.Interest.DecodeField` | kite-ndn-cxx/ndn-cxx/interest.cpp:193-306 | One element of the loop: order, size and criticality rules |
| `InterestPacket.Interest.DecodeForwardingHint` | kite-ndn-cxx/ndn-cxx/interest.cpp:220-251 | The names of a ForwardingHint in the new and the old format |
| `InterestPacket.Interest.WireEncode` | kite-ndn-cxx/ndn-cxx/interest.cpp:131-147 | From a valid Interest, what is returned decodes to the fields; without a cached wire it fails exactly for an empty name or when digest component and parameters do not go together, and only the former leaves the rejected wire cached, which the next call returns; only a missing nonce is filled in |
| `InterestPacket.EncodeTwice` | kite-ndn-cxx/ndn-cxx/interest.cpp:131-147 | On a default Interest the first wireEncode fails and the second returns a wire that does not decode |
| `InterestPacket.Interest.SetName` | kite-ndn-cxx/ndn-cxx/interest.cpp:366-382 | Rejects exactly names with two components of type 2 and 32 octets; with parameters a name without a digest gets one at its end, an existing one is replaced, and every other component stays |
| `InterestPacket.Interest.SetForwardingHint` | kite-ndn-cxx/ndn-cxx/interest.cpp:384-390 | Sets the names, drops the cached wire, keeps the invariants |
| `InterestPacket.Interest.SetNonce` | kite-ndn-cxx/ndn-cxx/interest.cpp:411-419 | Sets the nonce and keeps the cached wire exactly if nothing changed |
| `InterestPacket.Interest.SetInterestLifetime` | kite-ndn-cxx/ndn-cxx/interest.cpp:434-446 | Rejects exactly negative lifetimes; keeps the cached wire exactly if nothing changed |
| `InterestPacket.Interest.SetHopLimit` | kite-ndn-cxx/ndn-cxx/interest.cpp:448-456 | Sets the hop limit and keeps the cached wire exactly if nothing changed |
| `InterestPacket.Interest.SetApplicationParameters` | kite-ndn-cxx/ndn-cxx/interest.cpp:458-474 | Replaces the first parameter and keeps the others; a name without a digest component is a prefix of the new name, which is one longer; else the length and every other component stay, and the digest component holds the hash of the new parameters |
| `InterestPacket.Interest.SetSignatureInfo` | kite-ndn-cxx/ndn-cxx/interest.cpp:548-580 | The first element of type 44 is replaced and all others stay; without one the new element is inserted before the first of type 46 or at the end; the digest component is renewed if anything changed, and no other component changes |
| `InterestPacket.Interest.SetSignatureValue` | kite-ndn-cxx/ndn-cxx/interest.cpp:592-625 | Fails exactly without an element of type 44; the first element of type 46 is replaced and all others stay; without one the new element is inserted right after the first of type 44; the digest component is renewed if anything changed, and no other component changes |
| `InterestPacket.Interest.UnsetApplicationParameters` | kite-ndn-cxx/ndn-cxx/interest.cpp:516-526 | The parameters are gone; a digest component is taken out, and the components before and after it keep their order; none is left |
| `InterestPacket.Interest.AddOrReplaceParametersDigestComponent` | kite-ndn-cxx/ndn-cxx/interest.cpp:716-734 | A name without a digest component is a prefix of the new name, which is one longer; else the length and every other component stay. Afterwards the name has exactly one digest component, the hash of the parameters |
| `InterestPacket.Interest.FindParametersDigestComponent` | kite-ndn-cxx/ndn-cxx/interest.cpp:736-748 | The loop finds the only digest component, or tells none from several |

## Left out

- RTT estimation: an RTO is an arbitrary value at each step, so sendTime and Karn's rule are not modelled.
- Deadlines of RTO and idle-Ack timers: a timeout may fire at any moment while its owner exists.
- NetPkt as a heap object: a network packet is an entry of a map with handles, because the source only shares it between fragments; aliasing beyond that is not modelled.
- Iterators into std::map: a NetPkt lists TxSequences instead of iterators, which identify the same entries.
- setOptions during a run: options are fixed.
- Re-entrant calls from the onDroppedInterest signal, and logging.
- Rounding of double in the marking interval: the quotient by the square root is rounded down exactly.
- encodeLpFields and decodeNetPacket: header fields other than those of the link are carried along as opaque fields.
- Lazy field errors: a malformed field is an error of decoding the packet, whereas the source reports it when the field is read; a receiver in the link model gets decoded packets.
- Send side of StreamTransport (queue, close, error codes), sockets and other transports.
- FAILED transports: no step follows a failure in the stream model.
- InterestPacket.Interest.WireDecode: fields other than the name are not specified after a failure behind a valid name, because the source leaves them half decoded.
- Component and Name getSuccessor, URI forms, conventions, and appending or erasing components.
- CanonicalOrder.Compare: component values of 4 GiB and more are not modelled, because memcmp could then read past a buffer.
- Interest matching (matchesData, matchesInterest) and refreshNonce: they would only add easy members.
- Switching off the automatic check of the parameters digest.
- The original wire of nested blocks: an element is a type and a value, encoded minimally.
- Data, MetaInfo, SignatureInfo, Link and KeyLocator codecs repeat the pattern of the Interest codec.
- KiteStrategy, forwarding tables and routing are not part of this model.
