/** LpReliability and GenericLinkService, in the form of the source. */
module LinkLayer {
  import opened Basics
  import opened LpPackets
  import opened CyclicKeys
  import opened SendPath
  import opened FragMap
  import opened Tlv
  import opened Fragmenter
  import opened LinkSpec
  import D = Duplicates
  import R = Reassembler
  import W = TxWindow

  /** The marking state changes by one check, if marking is allowed, and mark is its verdict. */
  ghost predicate MarkedBy(o: LinkOptions, m: Marking, m': Marking, mark: bool) {
    if o.allowCongestionMarking
    then exists queueLength: int, now: nat :: Check(o.marking, m, queueLength, now) == (m', mark)
    else m' == m && !mark
  }

  lemma MarkedOnce(o: LinkOptions, m: Marking, queueLength: int, now: nat)
    requires o.allowCongestionMarking
    ensures var r := Check(o.marking, m, queueLength, now); MarkedBy(o, m, r.0, r.1)
  {
    hide Check;
    var r := Check(o.marking, m, queueLength, now);
    assert r == (r.0, r.1);
  }

  class GenericLinkService {
    const options: LinkOptions
    var reliability: LpReliability?
    var reassembler: R.LpReassembler?
    var lastSeqNo: u64
    var nextMarkTime: Option<nat>
    var nMarkedSinceInMarkingState: nat
    var nFragmentationErrors: nat
    var nOutOverMtu: nat
    var nCongestionMarked: nat
    var nDuplicateSequence: nat
    var nInLpInvalid: nat
    var nAcknowledged: nat
    var nRetransmitted: nat
    var nRetxExhausted: nat
    /** Packets whose Interests were reported by onDroppedInterest. */
    var droppedInterests: seq<LpPacket>
    /** Packets handed to the transport. */
    var wire: seq<LpPacket>
    /** Network-layer packets passed to decodeNetPacket, with their first fragments. */
    var delivered: seq<(Bytes, LpPacket)>
    /** Packets passed to sendLpPacket, what became of each, and the number of Sequences assigned. */
    ghost var sendLog: seq<LpPacket>
    ghost var emitted: seq<Emission>
    ghost var nSeq: nat

    ghost predicate Ready()
      reads this, reliability, reassembler
    {
      && reliability != null && reassembler != null
      && reliability.linkService == this && reliability.options == options.window && reliability.Valid()
      && reassembler.options == options.reassembler && R.Inv(reassembler.partialPackets)
      && lastSeqNo == Key(M64 - 2 + nSeq)
    }

    constructor (options: LinkOptions)
      ensures Ready() && this.options == options && nSeq == 0 && lastSeqNo == M64 - 2
      ensures fresh(reliability) && fresh(reassembler) && reliability.w == W.INITIAL
      ensures reliability.received == [] && ReceiverState() == IDLE_RECEIVER
      ensures sendLog == [] && emitted == [] && wire == [] && delivered == []
    {
      hide Represents;
      hide EmissionsMatch;
      hide Ownership;
      hide TimersMatch;
      hide DropsMatch;
      hide W.Inv;
      assert EmissionsMatch(EffectiveMtu(options), [], [], [], [], 0) by { NothingEmitted(EffectiveMtu(options)); }
      this.options, lastSeqNo, nSeq := options, M64 - 2, 0;
      nextMarkTime, nMarkedSinceInMarkingState := None, 0;
      nFragmentationErrors, nOutOverMtu, nCongestionMarked, nDuplicateSequence, nInLpInvalid := 0, 0, 0, 0, 0;
      nAcknowledged, nRetransmitted, nRetxExhausted, droppedInterests := 0, 0, 0, [];
      wire, delivered, sendLog, emitted := [], [], [], [];
      reliability, reassembler := null, null;
      new;
      var reassembler := new R.LpReassembler(options.reassembler);
      this.reassembler := reassembler;
      var reliability := new LpReliability(options.window, this);
      this.reliability := reliability;
    }

    /** The state of duplicate suppression and reassembly. */
    ghost function ReceiverState(): Receiver
      requires reliability != null && reassembler != null
      reads this, reliability, reassembler
    {
      Receiver(D.Recent(reliability.recentRecvSeqs, reliability.recentRecvSeqsQueue), reassembler.partialPackets)
    }

    /** `checkCongestionLevel`, at a queue length and a time that the environment decides. */
    method CheckCongestionLevel(pkt: LpPacket, queueLength: int, now: nat) returns (pkt': LpPacket)
      modifies this`nextMarkTime, this`nMarkedSinceInMarkingState, this`nCongestionMarked
      ensures var r := Check(options.marking, Marking(old(nextMarkTime), old(nMarkedSinceInMarkingState)),
                             queueLength, now);
              && Marking(nextMarkTime, nMarkedSinceInMarkingState) == r.0
              && pkt' == (if r.1 then pkt.(congestionMark := Some(1)) else pkt)
              && nCongestionMarked == old(nCongestionMarked) + (if r.1 then 1 else 0)
    {
      pkt' := pkt;
      if queueLength < 0 {
        return;
      }
      if queueLength > options.marking.threshold {
        if nextMarkTime.None? {
          nextMarkTime := Some(now + options.marking.base);
        } else if now >= nextMarkTime.value {
          pkt' := pkt.(congestionMark := Some(1));
          nCongestionMarked := nCongestionMarked + 1;
          nMarkedSinceInMarkingState := nMarkedSinceInMarkingState + 1;
          var interval := Interval(options.marking.base, nMarkedSinceInMarkingState + 1);
          nextMarkTime := Some(nextMarkTime.value + interval);
        }
      } else if nextMarkTime.Some? {
        nextMarkTime := None;
        nMarkedSinceInMarkingState := 0;
      }
    }

    /** The packet is checked at whatever queue length and time the environment shows. */
    method MarkIfCongested(pkt: LpPacket) returns (pkt': LpPacket, ghost mark: bool)
      modifies this`nextMarkTime, this`nMarkedSinceInMarkingState, this`nCongestionMarked
      ensures MarkedBy(options, Marking(old(nextMarkTime), old(nMarkedSinceInMarkingState)),
                       Marking(nextMarkTime, nMarkedSinceInMarkingState), mark)
      ensures pkt' == if mark then pkt.(congestionMark := Some(1)) else pkt
      ensures nCongestionMarked == old(nCongestionMarked) + (if mark then 1 else 0)
      ensures mark ==> options.allowCongestionMarking
    {
      hide Check;
      pkt', mark := pkt, false;
      if options.allowCongestionMarking {
        var queueLength: int := *;
        var now: nat := *;
        ghost var m := Marking(nextMarkTime, nMarkedSinceInMarkingState);
        mark := Check(options.marking, m, queueLength, now).1;
        pkt' := CheckCongestionLevel(pkt, queueLength, now);
        MarkedOnce(options, m, queueLength, now);
      }
    }

    /** `requestIdlePacket`: an empty packet, passed on with as many Acks as fit. It reaches the
        transport exactly if it does not overflow the MTU. */
    method RequestIdlePacket()
      requires reliability != null
      requires Emissions(reliability.attached)
      modifies this`nextMarkTime, this`nMarkedSinceInMarkingState, this`nCongestionMarked
      modifies this`nOutOverMtu, this`wire, this`sendLog, this`emitted, reliability`ackQueue, reliability`attached
      ensures Emissions(reliability.attached)
      ensures AcksTaken(EMPTY, |old(reliability.ackQueue)|) <= |old(reliability.ackQueue)|
      ensures var k := AcksTaken(EMPTY, |old(reliability.ackQueue)|);
              && reliability.ackQueue == old(reliability.ackQueue)[k..]
              && reliability.attached == old(reliability.attached) + old(reliability.ackQueue)[..k]
              && |emitted| == |old(emitted)| + 1
              && emitted == old(emitted)
                            + [Emission(EMPTY, old(reliability.ackQueue)[..k], emitted[|old(emitted)|].marked)]
      ensures emitted[|old(emitted)|].marked ==> options.allowCongestionMarking
      ensures if TooLarge(EffectiveMtu(options), Leaving(emitted[|old(emitted)|]))
              then wire == old(wire) && nOutOverMtu == old(nOutOverMtu) + 1
              else wire == old(wire) + [Leaving(emitted[|old(emitted)|])] && nOutOverMtu == old(nOutOverMtu)
      ensures options.reliable && EffectiveMtu(options) >= 0 ==>
                (nOutOverMtu == old(nOutOverMtu) + 1 <==>
                 Overflows(EMPTY, EffectiveMtu(options), |old(reliability.ackQueue)|, emitted[|old(emitted)|].marked))
    {
      hide MarkedBy;
      hide EmissionsMatch;
      hide WireSize;
      hide Overflows;
      hide AcksAttached;
      SendLpPacket(EMPTY);
      if options.reliable && EffectiveMtu(options) >= 0 {
        DroppedExactly(EMPTY, EffectiveMtu(options), old(reliability.ackQueue), emitted[|old(emitted)|].marked);
      }
    }

    /** Every packet passed on is on the wire or counted in nOutOverMtu, with the Acks attached to it. */
    ghost predicate Emissions(attached: seq<u64>)
      reads this
    {
      EmissionsMatch(EffectiveMtu(options), emitted, sendLog, wire, attached, nOutOverMtu)
    }

    /** How many of n queued Acks sendLpPacket attaches. */
    function AcksTaken(pkt: LpPacket, n: nat): nat {
      if options.reliable then AcksAttached(pkt, EffectiveMtu(options), n) else 0
    }

    /** `sendLpPacket`: a prefix of the Ack queue moves onto the packet, one check decides the mark, and
        the packet reaches the transport exactly if it is then within the MTU. */
    method SendLpPacket(pkt: LpPacket)
      requires reliability != null && (options.reliable ==> EncodesAsLpPacket(pkt))
      requires Emissions(reliability.attached)
      modifies this`nextMarkTime, this`nMarkedSinceInMarkingState, this`nCongestionMarked
      modifies this`nOutOverMtu, this`wire, this`sendLog, this`emitted, reliability`ackQueue, reliability`attached
      ensures Emissions(reliability.attached)
      ensures sendLog == old(sendLog) + [pkt]
      ensures reliability.attached + reliability.ackQueue == old(reliability.attached + reliability.ackQueue)
      ensures AcksTaken(pkt, |old(reliability.ackQueue)|) <= |old(reliability.ackQueue)|
      ensures var k := AcksTaken(pkt, |old(reliability.ackQueue)|);
              && reliability.ackQueue == old(reliability.ackQueue)[k..]
              && reliability.attached == old(reliability.attached) + old(reliability.ackQueue)[..k]
              && |emitted| == |old(emitted)| + 1
              && emitted == old(emitted)
                            + [Emission(pkt, old(reliability.ackQueue)[..k], emitted[|old(emitted)|].marked)]
      ensures var e := emitted[|old(emitted)|];
              && MarkedBy(options, Marking(old(nextMarkTime), old(nMarkedSinceInMarkingState)),
                          Marking(nextMarkTime, nMarkedSinceInMarkingState), e.marked)
              && (e.marked ==> options.allowCongestionMarking)
              && nCongestionMarked == old(nCongestionMarked) + (if e.marked then 1 else 0)
              && (if TooLarge(EffectiveMtu(options), Leaving(e))
                  then wire == old(wire) && nOutOverMtu == old(nOutOverMtu) + 1
                  else wire == old(wire) + [Leaving(e)] && nOutOverMtu == old(nOutOverMtu))
      ensures ProperMtus(options) ==>
                var p := Leaving(emitted[|old(emitted)|]);
                wire == old(wire) + (if options.transportMtu != MTU_UNLIMITED
                                        && (WireSize(p) > options.overrideMtu || WireSize(p) > options.transportMtu)
                                     then [] else [p])
    {
      hide MarkedBy;
      hide WireSize;
      hide AcksAttached;
      hide EmissionsMatch;
      var mtu := EffectiveMtu(options);
      var p := pkt;
      sendLog := sendLog + [pkt];
      if options.reliable {
        p := reliability.Piggyback(p, mtu);
      }
      ghost var k := AcksTaken(pkt, |old(reliability.ackQueue)|);
      assert p == pkt.(acks := pkt.acks + old(reliability.ackQueue)[..k]);
      ghost var mark;
      p, mark := MarkIfCongested(p);
      ghost var e := Emission(pkt, old(reliability.ackQueue)[..k], mark);
      EmissionAdded(mtu, emitted, old(sendLog), wire, old(reliability.attached), nOutOverMtu, e);
      assert reliability.attached == old(reliability.attached) + e.acks;
      emitted := emitted + [e];
      assert Leaving(e) == p;
      if ProperMtus(options) {
        TooLargeExactly(options, p);
      }
      if mtu != MTU_UNLIMITED && WireSize(p) > mtu {
        nOutOverMtu := nOutOverMtu + 1;
        return;
      }
      wire := wire + [p];
    }

    /** `assignSequences`. */
    method AssignSequences(pkts: seq<LpPacket>) returns (pkts': seq<LpPacket>)
      requires lastSeqNo == Key(M64 - 2 + nSeq)
      modifies this`lastSeqNo, this`nSeq
      ensures lastSeqNo == Key(M64 - 2 + nSeq) && nSeq == old(nSeq) + |pkts|
      ensures |pkts'| == |pkts|
      ensures forall i :: 0 <= i < |pkts| ==> pkts'[i] == pkts[i].(sequence := Some(SequenceNumber(old(nSeq) + i)))
    {
      hide Key;
      pkts' := [];
      while |pkts'| < |pkts|
        invariant |pkts'| <= |pkts| && nSeq == old(nSeq) + |pkts'|
        invariant lastSeqNo == Key(M64 - 2 + nSeq)
        invariant forall i :: 0 <= i < |pkts'| ==> pkts'[i] == pkts[i].(sequence := Some(SequenceNumber(old(nSeq) + i)))
        decreases |pkts| - |pkts'|
      {
        IncrementKey(M64 - 2 + nSeq);
        lastSeqNo := Increment(lastSeqNo);
        pkts' := pkts' + [pkts[|pkts'|].(sequence := Some(lastSeqNo))];
        nSeq := nSeq + 1;
      }
    }

    /** The part of `sendNetPacket` that decides how the packet is split. */
    method MakeFragments(pkt: LpPacket) returns (isOk: bool, frags: seq<LpPacket>)
      requires IsNetPacket(pkt)
      requires FragmentMtu(options) == MTU_UNLIMITED || FragmentMtu(options) >= 0
      ensures isOk <==> !CannotSplit(options, pkt)
      ensures isOk ==> IsSplit(pkt, frags)
      ensures isOk && options.allowFragmentation && FragmentMtu(options) != MTU_UNLIMITED ==>
                AllFit(frags, FragmentMtu(options))
      ensures isOk && !options.allowFragmentation ==> frags == [pkt]
      ensures isOk && options.transportMtu == MTU_UNLIMITED && options.overrideMtu >= 0 ==> frags == [pkt]
      ensures isOk && options.allowFragmentation && options.overrideMtu >= 24 && options.transportMtu >= 24 ==>
                (frags == [pkt] <==> WithinLimits(options, 30 + WireSize(pkt)))
    {
      hide Fails;
      hide AllFit;
      hide WireSize;
      var mtu := EffectiveMtu(options);
      if options.reliable && mtu != MTU_UNLIMITED {
        mtu := mtu - RESERVED_HEADER_SPACE;
      }
      if options.allowCongestionMarking && mtu != MTU_UNLIMITED {
        mtu := mtu - CONGESTION_MARK_SIZE;
      }
      assert mtu == FragmentMtu(options);
      if options.allowFragmentation && mtu != MTU_UNLIMITED {
        isOk, frags := FragmentPacket(pkt, mtu, options.maxFragments);
      } else {
        isOk, frags := true, [pkt];
      }
    }

    /** The last loop of `sendNetPacket`. */
    method SendAll(frags: seq<LpPacket>)
      requires reliability != null && reliability.linkService == this && reliability.Valid()
      requires options.reliable ==> forall i :: 0 <= i < |frags| ==> EncodesAsLpPacket(frags[i])
      modifies this`nextMarkTime, this`nMarkedSinceInMarkingState, this`nCongestionMarked
      modifies this`nOutOverMtu, this`wire, this`sendLog, this`emitted, reliability`ackQueue, reliability`attached
      ensures reliability.Valid() && sendLog == old(sendLog) + frags
      ensures AllSent(options, frags) && (options.reliable ==> old(reliability.ackQueue) == []) ==>
                nOutOverMtu == old(nOutOverMtu) && Marked(wire, old(wire), frags)
    {
      hide Represents;
      hide EmissionsMatch;
      hide Ownership;
      hide W.Inv;
      hide TimersMatch;
      hide DropsMatch;
      hide Fits;
      hide EncodesAsLpPacket;
      hide Marked;
      hide MarkedBy;
      hide Leaving;
      hide TooLarge;
      hide AcksAttached;
      var i := 0;
      NothingMarked(wire);
      while i < |frags|
        invariant 0 <= i <= |frags|
        invariant reliability.Valid() && sendLog == old(sendLog) + frags[..i]
        invariant old(reliability.ackQueue) == [] ==> reliability.ackQueue == []
        invariant AllSent(options, frags) && (options.reliable ==> old(reliability.ackQueue) == []) ==>
                    nOutOverMtu == old(nOutOverMtu) && Marked(wire, old(wire), frags[..i])
      {
        ghost var before := wire;
        SendLpPacket(frags[i]);
        ghost var e := emitted[|emitted| - 1];
        FitsAlone(options, e);
        if e.acks == [] && Marked(before, old(wire), frags[..i]) {
          MarkedStep(before, old(wire), frags[..i], frags[i], Leaving(e));
        }
        assert frags[..i + 1] == frags[..i] + [frags[i]];
        i := i + 1;
      }
      assert frags[..i] == frags;
    }

    /** `sendNetPacket`. Fragmentation errors change nothing else. Otherwise the packet itself or its
        fragments are passed on, numbered without gaps. With fragmentation allowed and limits of at
        least 24, the packet stays whole exactly if it has room for 30 octets and the feature fields,
        and with no Acks waiting everything reaches the transport. */
    method SendNetPacket(pkt: LpPacket, isInterest: bool) returns (thrown: bool, ghost frags: seq<LpPacket>)
      requires Ready() && IsNetPacket(pkt)
      requires FragmentMtu(options) == MTU_UNLIMITED || FragmentMtu(options) >= 0
      modifies this`lastSeqNo, this`nSeq, this`nFragmentationErrors
      modifies this`nextMarkTime, this`nMarkedSinceInMarkingState, this`nCongestionMarked
      modifies this`nOutOverMtu, this`wire, this`sendLog, this`emitted, reliability`ackQueue, reliability`attached
      modifies reliability`unackedFrags, reliability`firstUnackedFrag, reliability`lastTxSeqNo
      modifies reliability`netPkts, reliability`nextNetPkt, reliability`w
      ensures CannotSplit(options, pkt) ==>
                && !thrown && Ready() && nFragmentationErrors == old(nFragmentationErrors) + 1
                && sendLog == old(sendLog) && wire == old(wire) && nSeq == old(nSeq)
                && reliability.w == old(reliability.w)
      ensures !CannotSplit(options, pkt) ==>
                && IsSplit(pkt, frags) && nFragmentationErrors == old(nFragmentationErrors)
                && (thrown <==> Admit(options, old(reliability.w), frags, old(nSeq), pkt, isInterest).LengthError?)
      ensures !CannotSplit(options, pkt) && !thrown ==>
                && Ready() && nSeq == old(nSeq) + (if UsesSequences(options, |frags|) then |frags| else 0)
                && reliability.w == Admit(options, old(reliability.w), frags, old(nSeq), pkt, isInterest).s
                && sendLog == old(sendLog) + AllOutgoing(options, frags, old(nSeq), old(reliability.w.next))
      ensures !CannotSplit(options, pkt) && options.allowFragmentation
              && options.overrideMtu >= 24 && options.transportMtu >= 24 ==>
                (frags == [pkt] <==> WithinLimits(options, 30 + WireSize(pkt)))
      ensures !options.allowFragmentation ==> frags == [pkt]
      ensures options.transportMtu == MTU_UNLIMITED && options.overrideMtu >= 0 ==> frags == [pkt]
      ensures !CannotSplit(options, pkt) && !thrown && options.allowFragmentation
              && options.overrideMtu >= 24 && options.transportMtu >= 24
              && (options.reliable ==> old(reliability.ackQueue) == []) ==>
                && nOutOverMtu == old(nOutOverMtu)
                && Marked(wire, old(wire), AllOutgoing(options, frags, old(nSeq), old(reliability.w.next)))
    {
      hide Fails;
      hide AllFit;
      hide IsSplit;
      hide Admit;
      hide AllOutgoing;
      hide Marked;
      hide Key;
      hide Represents;
      hide EmissionsMatch;
      hide Ownership;
      hide W.Inv;
      hide TimersMatch;
      hide DropsMatch;
      hide R.Inv;
      hide IsElement;
      thrown := false;
      var isOk, pkts := MakeFragments(pkt);
      frags := pkts;
      if !isOk {
        nFragmentationErrors := nFragmentationErrors + 1;
        return;
      }
      NotIndexed(pkt, frags);
      thrown := SendFragments(pkt, isInterest, pkts);
    }

    /** The part of `sendNetPacket` after the packet has been split. */
    method SendFragments(pkt: LpPacket, isInterest: bool, frags: seq<LpPacket>) returns (thrown: bool)
      requires Ready() && frags != []
      requires forall i :: 0 <= i < |frags| ==>
                 frags[i].fragment.Some? && frags[i].sequence.None? && frags[i].txSequence.None?
      modifies this`lastSeqNo, this`nSeq
      modifies this`nextMarkTime, this`nMarkedSinceInMarkingState, this`nCongestionMarked
      modifies this`nOutOverMtu, this`wire, this`sendLog, this`emitted, reliability`ackQueue, reliability`attached
      modifies reliability`unackedFrags, reliability`firstUnackedFrag, reliability`lastTxSeqNo
      modifies reliability`netPkts, reliability`nextNetPkt, reliability`w
      ensures thrown <==> Admit(options, old(reliability.w), frags, old(nSeq), pkt, isInterest).LengthError?
      ensures !thrown ==>
                && Ready() && nSeq == old(nSeq) + (if UsesSequences(options, |frags|) then |frags| else 0)
                && reliability.w == Admit(options, old(reliability.w), frags, old(nSeq), pkt, isInterest).s
                && sendLog == old(sendLog) + AllOutgoing(options, frags, old(nSeq), old(reliability.w.next))
      ensures !thrown && EffectiveMtu(options) >= 24 && AllFit(frags, FragmentMtu(options))
              && (options.reliable ==> old(reliability.ackQueue) == []) ==>
                && nOutOverMtu == old(nOutOverMtu)
                && Marked(wire, old(wire), AllOutgoing(options, frags, old(nSeq), old(reliability.w.next)))
    {
      hide Represents;
      hide EmissionsMatch;
      hide Ownership;
      hide W.Inv;
      hide TimersMatch;
      hide DropsMatch;
      hide AllFit;
      hide AllSent;
      hide Marked;
      hide Key;
      hide W.HandleOutgoing;
      hide R.Inv;
      thrown := false;
      var pkts := frags;
      if options.reliable || |pkts| > 1 {
        pkts := AssignSequences(pkts);
      }
      assert pkts == SequencedAll(options, frags, old(nSeq));
      if options.reliable && pkts[0].fragment.Some? {
        pkts, thrown := reliability.HandleOutgoing(pkts, pkt, isInterest);
        if thrown {
          return;
        }
      }
      assert pkts == AllOutgoing(options, frags, old(nSeq), old(reliability.w.next));
      AllBudget(options, frags, old(nSeq), old(reliability.w.next));
      SendAll(pkts);
    }

    /** `doReceivePacket` for a packet that decodes, at time now, with rto the estimated RTO after
        its Acks. */
    method DoReceivePacket(pkt: LpPacket, endpoint: u64, now: nat, rto: nat) returns (thrown: bool)
      requires Ready()
      modifies reliability`unackedFrags, reliability`firstUnackedFrag, reliability`lastTxSeqNo, reliability`netPkts
      modifies reliability`w, reliability`ackQueue, reliability`attached, this`nAcknowledged, this`nRetransmitted
      modifies this`nRetxExhausted, this`droppedInterests, this`nextMarkTime
      modifies this`nMarkedSinceInMarkingState, this`nCongestionMarked
      modifies this`nOutOverMtu, this`wire, this`sendLog, this`emitted
      modifies reliability`received, reliability`recentRecvSeqs, reliability`recentRecvSeqsQueue
      modifies reliability`idleAckTimer
      modifies this`nDuplicateSequence, this`nInLpInvalid, this`delivered, reassembler`partialPackets
      ensures thrown <==> options.reliable && W.ProcessAcks(options.window, old(reliability.w), pkt.acks).LengthError?
      ensures !thrown ==>
                && Ready()
                && reliability.w == (if options.reliable
                                     then W.ProcessAcks(options.window, old(reliability.w), pkt.acks).s
                                     else old(reliability.w))
                && reliability.received == old(reliability.received)
                   + (if options.reliable && pkt.fragment.Some? && pkt.txSequence.Some?
                      then [pkt.txSequence.value] else [])
      ensures !thrown && options.reliable ==>
                && W.ResentGrows(old(reliability.w), reliability.w)
                && sendLog == old(sendLog) + reliability.w.resent[|old(reliability.w.resent)|..]
      ensures !thrown && !options.reliable ==> sendLog == old(sendLog)
      ensures !thrown ==>
                var r := Receive(options, old(ReceiverState()), endpoint, pkt, now, rto);
                && ReceiverState() == r.0
                && delivered == old(delivered) + (if r.1.Delivered? then [(r.1.netPkt, r.1.first)] else [])
                && nInLpInvalid == old(nInLpInvalid) + (if r.1.Malformed? then 1 else 0)
                && nDuplicateSequence == old(nDuplicateSequence)
                   + (if options.reliable && RecentAfter(old(ReceiverState()).recent, pkt, now, rto).1 then 1 else 0)
      ensures !thrown && (pkt.fragment.None? || (!options.allowReassembly
                                                 && (pkt.fragIndex.Some? || pkt.fragCount.Some?))) ==>
                && delivered == old(delivered) && nInLpInvalid == old(nInLpInvalid)
                && reassembler.partialPackets == old(reassembler.partialPackets)
    {
      hide Represents;
      hide EmissionsMatch;
      hide Ownership;
      hide W.Inv;
      hide TimersMatch;
      hide DropsMatch;
      hide Key;
      hide W.ProcessAcks;
      hide R.Inv;
      hide R.Add;
      hide RecentAfter;
      thrown := false;
      if options.reliable {
        var isNew;
        isNew, thrown := reliability.ProcessIncomingPacket(pkt, now, rto);
        if thrown {
          return;
        }
        if !isNew {
          nDuplicateSequence := nDuplicateSequence + 1;
          return;
        }
      }
      ReceivePayload(pkt, endpoint, now);
    }

    /** The part of `doReceivePacket` after duplicates have been dropped. */
    method ReceivePayload(pkt: LpPacket, endpoint: u64, now: nat)
      requires reassembler != null && reassembler.options == options.reassembler
      requires R.Inv(reassembler.partialPackets)
      modifies this`nInLpInvalid, this`delivered, reassembler`partialPackets
      ensures R.Inv(reassembler.partialPackets)
      ensures pkt.fragment.None? || (IsIndexed(pkt) && !options.allowReassembly) ==>
                && delivered == old(delivered) && nInLpInvalid == old(nInLpInvalid)
                && reassembler.partialPackets == old(reassembler.partialPackets)
      ensures !(pkt.fragment.None? || (IsIndexed(pkt) && !options.allowReassembly)) ==>
                var (partials, r) := R.Add(options.reassembler, old(reassembler.partialPackets), endpoint, pkt, now);
                && reassembler.partialPackets == partials
                && delivered == old(delivered) + (if r.Delivered? then [(r.netPkt, r.first)] else [])
                && nInLpInvalid == old(nInLpInvalid) + (if r.Malformed? then 1 else 0)
    {
      hide R.Inv;
      hide R.Add;
      if pkt.fragment.None? {
        return;
      }
      if (pkt.fragIndex.Some? || pkt.fragCount.Some?) && !options.allowReassembly {
        return;
      }
      var r := reassembler.ReceiveFragment(endpoint, pkt, now);
      if r.Delivered? {
        delivered := delivered + [(r.netPkt, r.first)];
      } else if r.Malformed? {
        nInLpInvalid := nInLpInvalid + 1;
      }
    }
  }

  /** A packet that fits with a mark fits when no Acks are attached. */
  lemma FitsAlone(o: LinkOptions, e: Emission)
    requires e.marked ==> o.allowCongestionMarking
    ensures e.acks == [] && Fits(o, e.passed) ==> !TooLarge(EffectiveMtu(o), Leaving(e))
    ensures e.acks == [] ==>
              Leaving(e) == e.passed || Leaving(e) == e.passed.(congestionMark := Some(1))
  {
    hide WireSize;
    assert e.acks == [] ==> e.passed.acks + e.acks == e.passed.acks;
  }

  /** wire continues before with the packets, each as it is or with a congestion mark. */
  ghost predicate Marked(wire: seq<LpPacket>, before: seq<LpPacket>, pkts: seq<LpPacket>) {
    && |wire| == |before| + |pkts| && before <= wire
    && forall i :: 0 <= i < |pkts| ==>
         wire[|before| + i] == pkts[i] || wire[|before| + i] == pkts[i].(congestionMark := Some(1))
  }

  lemma NothingMarked(wire: seq<LpPacket>)
    ensures Marked(wire, wire, [])
  {
  }

  lemma MarkedStep(wire: seq<LpPacket>, before: seq<LpPacket>, pkts: seq<LpPacket>, p: LpPacket, q: LpPacket)
    requires Marked(wire, before, pkts) && (q == p || q == p.(congestionMark := Some(1)))
    ensures Marked(wire + [q], before, pkts + [p])
  {
  }

  /** The signalled packets are the dropped network packets, in order. */
  predicate DropsMatch(signals: seq<LpPacket>, dropped: seq<nat>, nets: seq<W.Net>) {
    && |signals| == |dropped|
    && forall i :: 0 <= i < |dropped| ==> dropped[i] < |nets| && signals[i] == nets[dropped[i]].pkt
  }

  lemma NothingDropped()
    ensures DropsMatch([], [], [])
  {
  }

  lemma DropsKept(signals: seq<LpPacket>, dropped: seq<nat>, nets: seq<W.Net>, n: nat)
    requires DropsMatch(signals, dropped, nets) && n < |nets|
    ensures DropsMatch(signals, dropped, nets[n := nets[n].(didRetx := true)])
  {
  }

  lemma DropAdded(signals: seq<LpPacket>, dropped: seq<nat>, nets: seq<W.Net>, n: nat)
    requires DropsMatch(signals, dropped, nets) && n < |nets|
    ensures DropsMatch(signals + [nets[n].pkt], dropped + [n], nets)
  {
  }

  class LpReliability {
    const options: W.Options
    const linkService: GenericLinkService
    var unackedFrags: UnackedFrags
    var firstUnackedFrag: Option<u64>
    var lastTxSeqNo: u64
    var netPkts: NetPkts
    /** The next unused handle. */
    var nextNetPkt: nat
    var ackQueue: seq<u64>
    var recentRecvSeqs: map<u64, nat>
    var recentRecvSeqsQueue: seq<u64>
    var idleAckTimer: bool
    /** TxSequences of the fragments received so far, and Acks attached to packets so far. */
    ghost var received: seq<u64>
    ghost var attached: seq<u64>
    ghost var w: W.State

    ghost predicate Valid()
      reads this, linkService
    {
      && W.Inv(w)
      && CountersMatch()
      && nextNetPkt == |w.nets|
      && received == attached + ackQueue
      && Represents(unackedFrags, firstUnackedFrag, lastTxSeqNo, w.live, w.next)
      && Ownership(unackedFrags, netPkts, w.nets)
      && TimersMatch(unackedFrags)
      && linkService.Emissions(attached)
    }

    ghost predicate CountersMatch()
      reads this, linkService
    {
      && linkService.nAcknowledged == |w.acknowledged|
      && linkService.nRetransmitted == |w.retransmitted|
      && linkService.nRetxExhausted == |w.exhausted|
      && DropsMatch(linkService.droppedInterests, w.dropped, w.nets)
    }

    constructor (options: W.Options, linkService: GenericLinkService)
      requires linkService.nAcknowledged == linkService.nRetransmitted == linkService.nRetxExhausted == 0
      requires linkService.droppedInterests == [] && linkService.Emissions([])
      ensures Valid() && w == W.INITIAL && this.options == options && this.linkService == linkService
      ensures received == [] && |recentRecvSeqs| == 0 && recentRecvSeqsQueue == []
    {
      hide Represents;
      hide EmissionsMatch;
      hide Ownership;
      hide TimersMatch;
      hide W.Inv;
      hide DropsMatch;
      NothingSent();
      NothingDropped();
      this.options, this.linkService := options, linkService;
      unackedFrags, firstUnackedFrag, lastTxSeqNo, netPkts, nextNetPkt := map[], None, M64 - 1, map[], 0;
      ackQueue, recentRecvSeqs, recentRecvSeqsQueue, idleAckTimer := [], map[], [], false;
      w, received, attached := W.INITIAL, [], [];
    }

    /** `piggyback`: a prefix of the queue moves onto the packet. */
    method Piggyback(pkt: LpPacket, mtu: int) returns (pkt': LpPacket)
      requires EncodesAsLpPacket(pkt)
      modifies this`ackQueue, this`attached
      ensures var k := AcksAttached(pkt, mtu, |old(ackQueue)|);
              && pkt' == pkt.(acks := pkt.acks + old(ackQueue)[..k])
              && ackQueue == old(ackQueue)[k..]
              && attached == old(attached) + old(ackQueue)[..k]
    {
      pkt' := pkt;
      var pktSize := WireSize(pkt);
      var reservedSpace := VarSize(MAX_NDN_PACKET_SIZE) - VarSize(pktSize);
      var remainingSpace := (if mtu == MTU_UNLIMITED then MAX_NDN_PACKET_SIZE else mtu) - reservedSpace;
      remainingSpace := remainingSpace - pktSize;
      ghost var n := 0;
      while ackQueue != []
        invariant 0 <= n <= |old(ackQueue)|
        invariant ackQueue == old(ackQueue)[n..]
        invariant pkt' == pkt.(acks := pkt.acks + old(ackQueue)[..n])
        invariant attached == old(attached) + old(ackQueue)[..n]
        invariant remainingSpace == AckSpace(pkt, mtu) - ACK_SIZE * n
        invariant n > 0 ==> remainingSpace >= 0
        decreases |ackQueue|
      {
        var ackTxSeq := ackQueue[0];
        var ackSize := VarSize(ACK) + VarSize(8) + 8;
        if ackSize > remainingSpace {
          break;
        }
        pkt' := pkt'.(acks := pkt'.acks + [ackTxSeq]);
        ackQueue := ackQueue[1..];
        remainingSpace := remainingSpace - ackSize;
        attached := attached + [ackTxSeq];
        n := n + 1;
        assert old(ackQueue)[..n] == old(ackQueue)[..n - 1] + [ackTxSeq];
      }
      assert n == AcksAttached(pkt, mtu, |old(ackQueue)|);
    }

    /** `assignTxSequence`. The single comparison with the first unacknowledged fragment fails
        exactly when no TxSequence is free; otherwise the new one collides with none in use. */
    method AssignTxSequence(frag: LpPacket) returns (txSeq: u64, frag': LpPacket, thrown: bool)
      requires Represents(unackedFrags, firstUnackedFrag, lastTxSeqNo, w.live, w.next)
      modifies this`lastTxSeqNo
      ensures txSeq == lastTxSeqNo == Key(w.next)
      ensures frag' == W.Numbered(frag, w.next)
      ensures thrown <==> W.Full(w)
      ensures thrown <==> txSeq in unackedFrags
    {
      NextKeyFree(unackedFrags.Keys, firstUnackedFrag, w.live, w.next);
      lastTxSeqNo := Increment(lastTxSeqNo);
      txSeq := lastTxSeqNo;
      frag' := frag.(txSequence := Some(txSeq));
      thrown := unackedFrags.Keys != {} && firstUnackedFrag == Some(lastTxSeqNo);
    }

    /** `deleteUnackedFrag`. */
    method DeleteUnackedFrag(k: u64)
      requires k in unackedFrags && firstUnackedFrag.Some?
      modifies this`unackedFrags, this`firstUnackedFrag
      ensures unackedFrags == old(unackedFrags) - {k}
      ensures firstUnackedFrag == FirstAfterErase(old(firstUnackedFrag), k, old(unackedFrags).Keys - {k})
    {
      var firstUnackedTxSeq := firstUnackedFrag.value;
      unackedFrags := unackedFrags - {k};
      var nextFrag := After(unackedFrags.Keys, k);
      assert unackedFrags.Keys == old(unackedFrags).Keys - {k};
      if unackedFrags.Keys != {} && firstUnackedTxSeq == k {
        if nextFrag.None? {
          firstUnackedFrag := Some(Least(unackedFrags.Keys));
        } else {
          firstUnackedFrag := nextFrag;
        }
      } else if unackedFrags.Keys == {} {
        firstUnackedFrag := None;
      }
    }

    /** `onLpPacketAcknowledged` for the fragment with TxSequence k, the i-th oldest. */
    method OnLpPacketAcknowledged(k: u64, ghost i: nat)
      requires Valid() && i < |w.live| && k == Key(w.live[i].tx)
      modifies this`unackedFrags, this`firstUnackedFrag, this`netPkts, this`w
      modifies linkService`nAcknowledged, linkService`nRetransmitted
      ensures Valid() && w == W.Acknowledge(old(w), i)
    {
      hide Represents;
      hide EmissionsMatch;
      hide Ownership;
      hide W.Inv;
      hide Tracks;
      hide DropsMatch;
      hide TimersMatch;
      hide W.Without;
      hide W.TxsOf;
      hide NoDuplicates;
      hide Key;
      hide FirstAfterErase;
      FragAt(unackedFrags, netPkts, firstUnackedFrag, lastTxSeqNo, w, i);
      var n := unackedFrags[k].netPkt;
      var list := netPkts[n].unackedFrags;
      var pos :| 0 <= pos < |list| && list[pos] == k;
      Acknowledged(unackedFrags, netPkts, firstUnackedFrag, lastTxSeqNo, w, i, pos);
      list := list[pos := list[|list| - 1]];
      list := list[..|list| - 1];
      netPkts := netPkts[n := netPkts[n].(unackedFrags := list)];
      if list == [] {
        if netPkts[n].didRetx {
          linkService.nRetransmitted := linkService.nRetransmitted + 1;
        } else {
          linkService.nAcknowledged := linkService.nAcknowledged + 1;
        }
      }
      DeleteUnackedFrag(k);
      w := W.Acknowledge(w, i);
    }

    /** The loop of `onLpPacketLost` that deletes the other fragments of a network packet. */
    method DeleteOthers(n: nat, k: u64) returns (removed: seq<u64>, ghost dead: set<nat>)
      requires Represents(unackedFrags, firstUnackedFrag, lastTxSeqNo, w.live, w.next) && W.InLap(w.live, w.next)
      requires Ownership(unackedFrags, netPkts, w.nets) && n in netPkts
      modifies this`unackedFrags, this`firstUnackedFrag
      ensures forall x :: x in removed <==> x in netPkts[n].unackedFrags && x != k
      ensures unackedFrags == old(unackedFrags) - Elements(removed)
      ensures Represents(unackedFrags, firstUnackedFrag, lastTxSeqNo, W.Without(w.live, dead), w.next)
      ensures Tracks(w.live, dead, removed)
    {
      hide Represents;
      hide EmissionsMatch;
      hide Ownership;
      hide W.Inv;
      hide Tracks;
      hide W.InLap;
      hide W.Without;
      hide FirstAfterErase;
      var list := netPkts[n].unackedFrags;
      removed, dead := [], {};
      NothingErased(w.live);
      var j := 0;
      while j < |list|
        invariant 0 <= j <= |list|
        invariant forall x :: x in removed <==> x in list[..j] && x != k
        invariant unackedFrags == old(unackedFrags) - Elements(removed)
        invariant Represents(unackedFrags, firstUnackedFrag, lastTxSeqNo, W.Without(w.live, dead), w.next)
        invariant Tracks(w.live, dead, removed)
      {
        if list[j] != k {
          ListedOnce(old(unackedFrags), netPkts, w.nets, n, list, j);
          ghost var t := EraseOne(unackedFrags, firstUnackedFrag, lastTxSeqNo, w.live, w.next, dead, removed, list[j]);
          dead := dead + {t};
          removed := removed + [list[j]];
          DeleteUnackedFrag(list[j]);
        }
        j := j + 1;
      }
    }

    /** The branch of `onLpPacketLost` that gives up on the whole network packet. */
    method GiveUp(k: u64, ghost i: nat) returns (removed: seq<u64>)
      requires Valid() && i < |w.live| && k == Key(w.live[i].tx)
      modifies this`unackedFrags, this`firstUnackedFrag, this`netPkts, this`w
      modifies linkService`nRetxExhausted, linkService`droppedInterests
      ensures Valid() && w == W.GiveUp(old(w), old(w.live[i].net))
      ensures Tracks(old(w.live), W.TxsOf(old(w.live), old(w.live[i].net)), removed)
    {
      hide Represents;
      hide EmissionsMatch;
      hide Ownership;
      hide W.Inv;
      hide Tracks;
      hide DropsMatch;
      hide TimersMatch;
      hide W.Without;
      hide W.TxsOf;
      hide NoDuplicates;
      hide Key;
      hide FirstAfterErase;
      FragAt(unackedFrags, netPkts, firstUnackedFrag, lastTxSeqNo, w, i);
      ghost var u0, first0 := unackedFrags, firstUnackedFrag;
      var n := unackedFrags[k].netPkt;
      ghost var dead;
      removed, dead := DeleteOthers(n, k);
      DropAdded(linkService.droppedInterests, w.dropped, w.nets, n);
      linkService.nRetxExhausted := linkService.nRetxExhausted + 1;
      if netPkts[n].isInterest {
        linkService.droppedInterests := linkService.droppedInterests + [netPkts[n].pkt];
      }
      GivenUp(u0, netPkts, first0, lastTxSeqNo, w, i, unackedFrags, firstUnackedFrag, dead, removed);
      removed := removed + [k];
      DeleteUnackedFrag(k);
      w := W.GiveUp(w, n);
      netPkts := netPkts - {n};
    }

    /** The fragment gets a new TxSequence, in the map and in its network packet. */
    method Renumber(k: u64, ghost i: nat) returns (newTxSeq: u64, newPkt: LpPacket, thrown: bool)
      requires Valid() && i < |w.live| && k == Key(w.live[i].tx)
      modifies this`unackedFrags, this`firstUnackedFrag, this`lastTxSeqNo, this`netPkts
      ensures thrown <==> W.Full(w)
      ensures w.live[i].net < |w.nets| && k in old(unackedFrags) && newPkt == W.Numbered(w.live[i].pkt, w.next)
      ensures !thrown ==>
                var s, u := W.Retransmit(w, i), Moved(old(unackedFrags), k, newTxSeq, newPkt);
                && newTxSeq in unackedFrags
                && unackedFrags[newTxSeq := unackedFrags[newTxSeq].(rtoTimer := Some(newTxSeq))] == u
                && Represents(u, firstUnackedFrag, lastTxSeqNo, s.live, s.next)
                && Ownership(u, netPkts, s.nets)
                && Tracks(w.live, {w.live[i].tx}, [k])
    {
      hide Represents;
      hide EmissionsMatch;
      hide Ownership;
      hide W.Inv;
      hide Tracks;
      hide DropsMatch;
      hide TimersMatch;
      hide W.Without;
      hide W.NoNumberLeft;
      hide NoDuplicates;
      hide Key;
      hide FirstAfterErase;
      FragAt(unackedFrags, netPkts, firstUnackedFrag, lastTxSeqNo, w, i);
      var frag := unackedFrags[k];
      var n := frag.netPkt;
      newTxSeq, newPkt, thrown := AssignTxSequence(frag.pkt);
      if thrown {
        return;
      }
      var list := netPkts[n].unackedFrags;
      var pos :| 0 <= pos < |list| && list[pos] == k;
      Resent(unackedFrags, netPkts, firstUnackedFrag, old(lastTxSeqNo), w, i, pos);
      unackedFrags := unackedFrags[newTxSeq := UnackedFrag(newPkt, None, frag.retxCount + 1, 0, n)];
      netPkts := netPkts[n := netPkts[n].(unackedFrags := list[pos := newTxSeq], didRetx := true)];
      assert unackedFrags.Keys == old(unackedFrags).Keys + {newTxSeq};
      DeleteUnackedFrag(k);
    }

    /** The branch of `onLpPacketLost` that retransmits the fragment under a new TxSequence. */
    method Resend(k: u64, ghost i: nat) returns (removed: seq<u64>, thrown: bool)
      requires Valid() && linkService.reliability == this
      requires i < |w.live| && k == Key(w.live[i].tx)
      modifies this`unackedFrags, this`firstUnackedFrag, this`lastTxSeqNo, this`netPkts, this`w
      modifies this`ackQueue, this`attached
      modifies linkService`nextMarkTime, linkService`nMarkedSinceInMarkingState, linkService`nCongestionMarked
      modifies linkService`nOutOverMtu, linkService`wire, linkService`sendLog, linkService`emitted
      ensures thrown <==> W.Full(old(w))
      ensures !thrown ==> Valid() && old(w.live[i].net) < |old(w.nets)| && w == W.Retransmit(old(w), i)
      ensures !thrown ==> Tracks(old(w.live), {old(w.live[i].tx)}, removed)
      ensures !thrown ==> linkService.sendLog == old(linkService.sendLog) + w.resent[|old(w.resent)|..]
    {
      hide Leaving;
      hide WireSize;
      hide AcksAttached;
      hide Represents;
      hide EmissionsMatch;
      hide Ownership;
      hide W.Inv;
      hide Tracks;
      hide DropsMatch;
      hide TimersMatch;
      hide W.Without;
      hide W.NoNumberLeft;
      hide NoDuplicates;
      hide Key;
      hide FirstAfterErase;
      var newTxSeq, newPkt;
      newTxSeq, newPkt, thrown := Renumber(k, i);
      removed := [k];
      if thrown {
        return;
      }
      linkService.SendLpPacket(newPkt);
      unackedFrags := unackedFrags[newTxSeq := unackedFrags[newTxSeq].(rtoTimer := Some(newTxSeq))];
      TimersMoved(old(unackedFrags), k, newTxSeq, newPkt);
      DropsKept(linkService.droppedInterests, w.dropped, w.nets, w.live[i].net);
      w := W.Retransmit(w, i);
      WindowInv(unackedFrags, netPkts, firstUnackedFrag, lastTxSeqNo, w);
    }

    /** `onLpPacketLost` for the fragment with TxSequence k, the i-th oldest. */
    method OnLpPacketLost(k: u64, ghost i: nat) returns (removed: seq<u64>, thrown: bool)
      requires Valid() && linkService.reliability == this
      requires i < |w.live| && k == Key(w.live[i].tx)
      modifies this`unackedFrags, this`firstUnackedFrag, this`lastTxSeqNo, this`netPkts, this`w
      modifies this`ackQueue, this`attached, linkService`nAcknowledged, linkService`nRetransmitted
      modifies linkService`nRetxExhausted, linkService`droppedInterests, linkService`nextMarkTime
      modifies linkService`nMarkedSinceInMarkingState, linkService`nCongestionMarked
      modifies linkService`nOutOverMtu, linkService`wire, linkService`sendLog, linkService`emitted
      ensures thrown <==> W.Lose(options, old(w), i).LengthError?
      ensures !thrown ==> Valid() && w == W.Lose(options, old(w), i).s
      ensures !thrown ==> Tracks(old(w.live), W.Gone(options, old(w), i), removed)
      ensures !thrown ==> linkService.sendLog == old(linkService.sendLog) + w.resent[|old(w.resent)|..]
    {
      hide Represents;
      hide EmissionsMatch;
      hide Ownership;
      hide W.Inv;
      hide Tracks;
      hide W.Without;
      hide W.TxsOf;
      hide Key;
      hide CountersMatch;
      hide TimersMatch;
      hide W.NoNumberLeft;
      FragAt(unackedFrags, netPkts, firstUnackedFrag, lastTxSeqNo, w, i);
      if unackedFrags[k].retxCount >= options.maxRetx {
        removed := GiveUp(k, i);
        thrown := false;
      } else {
        removed, thrown := Resend(k, i);
      }
    }

    /** `findLostLpPackets` when the i-th oldest fragment, TxSequence ack, is acknowledged. */
    method FindLostLpPackets(ack: u64, ghost i: nat) returns (lost: seq<u64>)
      requires Valid() && i < |w.live| && ack == Key(w.live[i].tx)
      modifies this`unackedFrags, this`w
      ensures Valid() && w == old(w).(live := W.Overtake(old(w.live), i))
      ensures KeysOf(lost, W.LostAmong(options, w.live, i))
    {
      hide Represents;
      hide EmissionsMatch;
      hide Ownership;
      hide W.Inv;
      hide TimersMatch;
      hide W.Overtake;
      hide DropsMatch;
      hide Key;
      hide CyclicAfter;
      W.LostNone(options, w.live);
      assert KeysOf([], []);
      hide W.LostAmong;
      hide KeysOf;
      ghost var j := 0;
      lost := [];
      var it := firstUnackedFrag;
      W.OvertakeNone(w.live);
      Iterate(unackedFrags, firstUnackedFrag, lastTxSeqNo, w.live, w.next, 0);
      while true
        invariant 0 <= j <= i
        invariant Represents(unackedFrags, firstUnackedFrag, lastTxSeqNo, W.Overtake(w.live, j), w.next)
        invariant Ownership(unackedFrags, netPkts, w.nets) && TimersMatch(unackedFrags)
        invariant unackedFrags.Keys == old(unackedFrags.Keys) != {}
        invariant Position(it, unackedFrags.Keys) == Key(w.live[j].tx)
        invariant KeysOf(lost, W.LostAmong(options, W.Overtake(w.live, j), j))
        decreases i - j
        modifies this`unackedFrags
      {
        if it.None? {
          it := Some(Least(unackedFrags.Keys));
        }
        Iterate(old(unackedFrags), firstUnackedFrag, lastTxSeqNo, w.live, w.next, j);
        if it.value == ack {
          break;
        }
        W.LostNext(options, w.live, j);
        var isLost := CountOvertaking(it.value, j);
        if isLost {
          KeysAppend(lost, W.LostAmong(options, W.Overtake(w.live, j), j), w.live[j].tx);
          lost := lost + [it.value];
        }
        Advance(unackedFrags.Keys, it.value);
        it := After(unackedFrags.Keys, it.value);
        j := j + 1;
      }
      w := w.(live := W.Overtake(w.live, i));
      WindowInv(unackedFrags, netPkts, firstUnackedFrag, lastTxSeqNo, w);
    }

    /** The part of the loop in `findLostLpPackets` that counts one overtaking Ack. */
    method CountOvertaking(k: u64, ghost j: nat) returns (isLost: bool)
      requires j < |w.live| && k == Key(w.live[j].tx)
      requires Represents(unackedFrags, firstUnackedFrag, lastTxSeqNo, W.Overtake(w.live, j), w.next)
      requires Ownership(unackedFrags, netPkts, w.nets) && TimersMatch(unackedFrags)
      modifies this`unackedFrags
      ensures unackedFrags.Keys == old(unackedFrags.Keys)
      ensures Represents(unackedFrags, firstUnackedFrag, lastTxSeqNo, W.Overtake(w.live, j + 1), w.next)
      ensures Ownership(unackedFrags, netPkts, w.nets) && TimersMatch(unackedFrags)
      ensures isLost <==> w.live[j].greater + 1 >= options.lossThreshold
    {
      hide Represents;
      hide EmissionsMatch;
      hide Ownership;
      hide TimersMatch;
      hide W.Overtake;
      hide Key;
      BumpOne(unackedFrags, netPkts, firstUnackedFrag, lastTxSeqNo, w.live, w.next, w.nets, j);
      unackedFrags := Bumped(unackedFrags, k);
      isLost := unackedFrags[k].nGreaterSeqAcks >= options.lossThreshold;
    }

    /** The loss batch of `processIncomingPacket`: fragments already removed by it are skipped. */
    method LoseAll(lost: seq<u64>, ghost txs: seq<nat>) returns (thrown: bool)
      requires Valid() && linkService.reliability == this
      requires KeysOf(lost, txs)
      requires W.Batch(w, txs, 0, {})
      modifies this`unackedFrags, this`firstUnackedFrag, this`lastTxSeqNo, this`netPkts, this`w
      modifies this`ackQueue, this`attached, linkService`nAcknowledged, linkService`nRetransmitted
      modifies linkService`nRetxExhausted, linkService`droppedInterests, linkService`nextMarkTime
      modifies linkService`nMarkedSinceInMarkingState, linkService`nCongestionMarked
      modifies linkService`nOutOverMtu, linkService`wire, linkService`sendLog, linkService`emitted
      ensures thrown <==> W.LoseAll(options, old(w), txs).LengthError?
      ensures !thrown ==> Valid()
      ensures !thrown ==> w == W.LoseAll(options, old(w), txs).s
      ensures !thrown ==> W.ResentGrows(old(w), w)
      ensures !thrown ==> linkService.sendLog == old(linkService.sendLog) + w.resent[|old(w.resent)|..]
    {
      hide Represents;
      hide EmissionsMatch;
      hide Ownership;
      hide W.Inv;
      hide Tracks;
      hide TimersMatch;
      hide CountersMatch;
      hide W.Batch;
      hide W.Lose;
      hide W.Gone;
      hide Key;
      var removed: set<u64> := {};
      thrown := false;
      var j := 0;
      while j < |lost|
        invariant 0 <= j <= |lost|
        invariant Valid()
        invariant W.Batch(w, txs, j, removed)
        invariant W.LoseAll(options, old(w), txs) == W.LoseAll(options, w, txs[j..])
        invariant W.ResentGrows(old(w), w)
        invariant linkService.sendLog == old(linkService.sendLog) + w.resent[|old(w.resent)|..]
      {
        W.BatchAt(options, w, txs, j, removed);
        if lost[j] !in removed {
          ghost var i := W.Find(w.live, txs[j]).value;
          ghost var s := w;
          W.LoseInv(options, w, i);
          var more;
          more, thrown := OnLpPacketLost(lost[j], i);
          if thrown {
            return;
          }
          BatchTracked(options, s, txs, j, removed, i, more);
          removed := removed + Elements(more);
        } else {
          W.BatchSkip(w, txs, j, removed);
        }
        j := j + 1;
      }
    }

    /** One Ack of `processIncomingPacket`. */
    method ProcessAck(k: u64) returns (thrown: bool)
      requires Valid() && linkService.reliability == this
      modifies this`unackedFrags, this`firstUnackedFrag, this`lastTxSeqNo, this`netPkts, this`w
      modifies this`ackQueue, this`attached, linkService`nAcknowledged, linkService`nRetransmitted
      modifies linkService`nRetxExhausted, linkService`droppedInterests, linkService`nextMarkTime
      modifies linkService`nMarkedSinceInMarkingState, linkService`nCongestionMarked
      modifies linkService`nOutOverMtu, linkService`wire, linkService`sendLog, linkService`emitted
      ensures thrown <==> W.ProcessAck(options, old(w), k).LengthError?
      ensures !thrown ==> Valid()
      ensures !thrown ==> w == W.ProcessAck(options, old(w), k).s && W.ResentGrows(old(w), w)
      ensures !thrown ==> linkService.sendLog == old(linkService.sendLog) + w.resent[|old(w.resent)|..]
    {
      hide Represents;
      hide EmissionsMatch;
      hide Ownership;
      hide W.Inv;
      hide TimersMatch;
      hide CountersMatch;
      hide W.LoseAll;
      hide W.Overtake;
      hide W.Batch;
      hide Key;
      thrown := false;
      Lookup(unackedFrags, firstUnackedFrag, lastTxSeqNo, w.live, w.next, k);
      if k in unackedFrags {
        ghost var i := W.FindKey(w.live, k).value;
        W.AckParts(options, w, i);
        var lost := FindLostLpPackets(k, i);
        ghost var txs := W.LostAmong(options, w.live, i);
        OnLpPacketAcknowledged(k, i);
        thrown := LoseAll(lost, txs);
      }
    }

    /** The Ack loop of `processIncomingPacket`. */
    method ProcessAcks(acks: seq<u64>) returns (thrown: bool)
      requires Valid() && linkService.reliability == this
      modifies this`unackedFrags, this`firstUnackedFrag, this`lastTxSeqNo, this`netPkts, this`w
      modifies this`ackQueue, this`attached, linkService`nAcknowledged, linkService`nRetransmitted
      modifies linkService`nRetxExhausted, linkService`droppedInterests, linkService`nextMarkTime
      modifies linkService`nMarkedSinceInMarkingState, linkService`nCongestionMarked
      modifies linkService`nOutOverMtu, linkService`wire, linkService`sendLog, linkService`emitted
      ensures thrown <==> W.ProcessAcks(options, old(w), acks).LengthError?
      ensures !thrown ==> Valid()
      ensures !thrown ==> w == W.ProcessAcks(options, old(w), acks).s && W.ResentGrows(old(w), w)
      ensures !thrown ==> linkService.sendLog == old(linkService.sendLog) + w.resent[|old(w.resent)|..]
    {
      hide Represents;
      hide EmissionsMatch;
      hide Ownership;
      hide W.Inv;
      hide TimersMatch;
      hide CountersMatch;
      hide W.ProcessAck;
      thrown := false;
      var j := 0;
      while j < |acks|
        invariant 0 <= j <= |acks|
        invariant Valid()
        invariant W.ProcessAcks(options, old(w), acks) == W.ProcessAcks(options, w, acks[j..])
        invariant W.ResentGrows(old(w), w)
        invariant linkService.sendLog == old(linkService.sendLog) + w.resent[|old(w.resent)|..]
      {
        W.AcksAt(options, w, acks, j);
        thrown := ProcessAck(acks[j]);
        if thrown {
          return;
        }
        j := j + 1;
      }
    }

    /** `handleOutgoing`. */
    method HandleOutgoing(frags: seq<LpPacket>, pkt: LpPacket, isInterest: bool)
      returns (frags': seq<LpPacket>, thrown: bool)
      requires Valid()
      requires forall i :: 0 <= i < |frags| ==> frags[i].sequence.Some?
      modifies this`unackedFrags, this`firstUnackedFrag, this`lastTxSeqNo, this`netPkts, this`nextNetPkt, this`w
      ensures thrown <==> W.HandleOutgoing(old(w), frags, pkt, isInterest).LengthError?
      ensures !thrown ==> Valid() && w == W.HandleOutgoing(old(w), frags, pkt, isInterest).s
      ensures !thrown ==> |frags'| == |frags|
      ensures !thrown ==> forall i :: 0 <= i < |frags| ==> frags'[i] == W.Numbered(frags[i], old(w.next) + i)
    {
      hide Represents;
      hide EmissionsMatch;
      hide Ownership;
      hide W.Inv;
      hide Key;
      thrown, frags' := false, [];
      if frags == [] {
        return;
      }
      var n := nextNetPkt;
      NetAdded(unackedFrags, netPkts, w.nets, pkt, isInterest);
      netPkts := netPkts[n := NetPkt([], pkt, isInterest, false)];
      nextNetPkt := n + 1;
      w := w.(nets := w.nets + [W.Net(pkt, isInterest, false)]);
      WindowInv(unackedFrags, netPkts, firstUnackedFrag, lastTxSeqNo, w);
      while |frags'| < |frags|
        invariant |frags'| <= |frags| && n == nextNetPkt - 1 && n in netPkts
        invariant Valid()
        invariant W.HandleOutgoing(old(w), frags, pkt, isInterest) == W.TransmitAll(w, frags[|frags'|..])
        invariant w.next == old(w.next) + |frags'|
        invariant forall i :: 0 <= i < |frags'| ==> frags'[i] == W.Numbered(frags[i], old(w.next) + i)
        decreases |frags| - |frags'|
      {
        W.TransmitAllStep(w, frags, |frags'|);
        var frag;
        frag, thrown := TransmitFrag(frags[|frags'|], n);
        if thrown {
          return;
        }
        frags' := frags' + [frag];
      }
    }

    /** The body of the loop in `handleOutgoing`. */
    method TransmitFrag(frag: LpPacket, n: nat) returns (frag': LpPacket, thrown: bool)
      requires Valid() && n in netPkts && n == |w.nets| - 1
      modifies this`unackedFrags, this`firstUnackedFrag, this`lastTxSeqNo, this`netPkts, this`w
      ensures thrown <==> W.Transmit(old(w), frag).LengthError?
      ensures !thrown ==> Valid() && w == W.Transmit(old(w), frag).s && n in netPkts
      ensures frag' == W.Numbered(frag, old(w.next))
    {
      hide Represents;
      hide EmissionsMatch;
      hide Ownership;
      hide W.Inv;
      hide TimersMatch;
      hide DropsMatch;
      hide W.NoNumberLeft;
      hide Key;
      var txSeq;
      txSeq, frag', thrown := AssignTxSequence(frag);
      if thrown {
        return;
      }
      Sent(unackedFrags, netPkts, firstUnackedFrag, old(lastTxSeqNo), w, frag);
      InsertFrag(txSeq, frag', n);
      w := W.Transmit(w, frag).s;
      WindowInv(unackedFrags, netPkts, firstUnackedFrag, lastTxSeqNo, w);
    }

    /** A new entry of the map, with a timer, as the only or the newest one; its network packet lists it. */
    method InsertFrag(txSeq: u64, frag: LpPacket, n: nat)
      requires txSeq !in unackedFrags && n in netPkts
      modifies this`unackedFrags, this`firstUnackedFrag, this`netPkts
      ensures unackedFrags == old(unackedFrags)[txSeq := UnackedFrag(frag, Some(txSeq), 0, 0, n)]
      ensures firstUnackedFrag == if old(unackedFrags.Keys) == {} then Some(txSeq) else old(firstUnackedFrag)
      ensures netPkts == old(netPkts)[n := old(netPkts)[n].(unackedFrags := old(netPkts)[n].unackedFrags + [txSeq])]
    {
      hide Least;
      unackedFrags := unackedFrags[txSeq := UnackedFrag(frag, Some(txSeq), 0, 0, n)];
      assert unackedFrags.Keys == old(unackedFrags.Keys) + {txSeq};
      SizeOne(old(unackedFrags.Keys), txSeq);
      if |unackedFrags.Keys| == 1 {
        firstUnackedFrag := Some(Least(unackedFrags.Keys));
      }
      netPkts := netPkts[n := netPkts[n].(unackedFrags := netPkts[n].unackedFrags + [txSeq])];
    }

    /** `processIncomingPacket` at time now, with rto the estimated RTO after the Acks. */
    method ProcessIncomingPacket(pkt: LpPacket, now: nat, rto: nat) returns (isNew: bool, thrown: bool)
      requires Valid() && linkService.reliability == this
      modifies this`unackedFrags, this`firstUnackedFrag, this`lastTxSeqNo, this`netPkts, this`w
      modifies this`ackQueue, this`attached, linkService`nAcknowledged, linkService`nRetransmitted
      modifies linkService`nRetxExhausted, linkService`droppedInterests, linkService`nextMarkTime
      modifies linkService`nMarkedSinceInMarkingState, linkService`nCongestionMarked
      modifies linkService`nOutOverMtu, linkService`wire, linkService`sendLog, linkService`emitted
      modifies this`received, this`recentRecvSeqs, this`recentRecvSeqsQueue, this`idleAckTimer
      ensures thrown <==> W.ProcessAcks(options, old(w), pkt.acks).LengthError?
      ensures !thrown ==> Valid() && w == W.ProcessAcks(options, old(w), pkt.acks).s
      ensures !thrown ==> W.ResentGrows(old(w), w)
      ensures !thrown ==> linkService.sendLog == old(linkService.sendLog) + w.resent[|old(w.resent)|..]
      ensures !thrown ==> received == old(received)
                          + (if pkt.fragment.Some? && pkt.txSequence.Some? then [pkt.txSequence.value] else [])
      ensures !thrown ==>
                var r := RecentAfter(D.Recent(old(recentRecvSeqs), old(recentRecvSeqsQueue)), pkt, now, rto);
                D.Recent(recentRecvSeqs, recentRecvSeqsQueue) == r.0 && isNew == !r.1
      ensures !thrown && pkt.fragment.Some? && pkt.txSequence.Some? ==> idleAckTimer
    {
      hide Represents;
      hide EmissionsMatch;
      hide Ownership;
      hide W.Inv;
      hide TimersMatch;
      hide DropsMatch;
      hide W.ProcessAcks;
      isNew := true;
      thrown := ProcessAcks(pkt.acks);
      if thrown {
        return;
      }
      if pkt.fragment.Some? && pkt.txSequence.Some? {
        received := received + [pkt.txSequence.value];
        ackQueue := ackQueue + [pkt.txSequence.value];
        assert received == attached + ackQueue;
        if pkt.sequence.Some? {
          isNew := CheckRecent(pkt.sequence.value, now, rto);
        }
        idleAckTimer := true;
      }
    }

    /** The part of `processIncomingPacket` that looks for duplicate Sequences. */
    method CheckRecent(s: u64, now: nat, rto: nat) returns (isNew: bool)
      modifies this`recentRecvSeqs, this`recentRecvSeqsQueue
      ensures var r := D.Receive(D.Recent(old(recentRecvSeqs), old(recentRecvSeqsQueue)), s, now, rto);
              D.Recent(recentRecvSeqs, recentRecvSeqsQueue) == r.0 && isNew == !r.1
    {
      isNew := s !in recentRecvSeqs;
      while recentRecvSeqsQueue != []
        invariant D.Purge(D.Recent(recentRecvSeqs, recentRecvSeqsQueue), now, rto)
                  == D.Purge(D.Recent(old(recentRecvSeqs), old(recentRecvSeqsQueue)), now, rto)
        decreases |recentRecvSeqsQueue|
      {
        var front := recentRecvSeqsQueue[0];
        if front !in recentRecvSeqs {
          recentRecvSeqs := recentRecvSeqs[front := 0];
        }
        if now <= recentRecvSeqs[front] + rto {
          break;
        }
        recentRecvSeqs := recentRecvSeqs - {front};
        recentRecvSeqsQueue := recentRecvSeqsQueue[1..];
      }
      if s !in recentRecvSeqs {
        recentRecvSeqs := recentRecvSeqs[s := now];
      }
      recentRecvSeqsQueue := recentRecvSeqsQueue + [s];
    }

    /** A timeout fires: it reports the TxSequence it was scheduled for, which is still in use. */
    method OnRtoTimer(k: u64) returns (thrown: bool)
      requires Valid() && linkService.reliability == this && k in unackedFrags
      modifies this`unackedFrags, this`firstUnackedFrag, this`lastTxSeqNo, this`netPkts, this`w
      modifies this`ackQueue, this`attached, linkService`nAcknowledged, linkService`nRetransmitted
      modifies linkService`nRetxExhausted, linkService`droppedInterests, linkService`nextMarkTime
      modifies linkService`nMarkedSinceInMarkingState, linkService`nCongestionMarked
      modifies linkService`nOutOverMtu, linkService`wire, linkService`sendLog, linkService`emitted
      ensures W.FindKey(old(w.live), k).Some?
      ensures thrown <==> W.Lose(options, old(w), W.FindKey(old(w.live), k).value).LengthError?
      ensures !thrown ==> Valid() && w == W.Lose(options, old(w), W.FindKey(old(w.live), k).value).s
      ensures !thrown ==> W.ResentGrows(old(w), w)
      ensures !thrown ==> linkService.sendLog == old(linkService.sendLog) + w.resent[|old(w.resent)|..]
    {
      hide Represents;
      hide EmissionsMatch;
      hide Ownership;
      hide Tracks;
      hide CountersMatch;
      hide W.Lose;
      hide W.Gone;
      hide Key;
      Lookup(unackedFrags, firstUnackedFrag, lastTxSeqNo, w.live, w.next, k);
      ghost var i := W.FindKey(w.live, k).value;
      W.LoseResent(options, w, i);
      var removed;
      removed, thrown := OnLpPacketLost(unackedFrags[k].rtoTimer.value, i);
    }

    /** The idle Ack timer fires: IDLE packets are passed on until the queue is empty, which happens
        because each takes at least one Ack. The Acks reach the transport exactly if no packet is counted
        in nOutOverMtu meanwhile; without marking, and for an MTU below 65536, none is. */
    method OnIdleAckTimer()
      requires Valid() && linkService.reliability == this && linkService.options.reliable
      requires EffectiveMtu(linkService.options) == MTU_UNLIMITED || EffectiveMtu(linkService.options) >= 16
      modifies this`ackQueue, this`attached, this`idleAckTimer, linkService`nextMarkTime
      modifies linkService`nMarkedSinceInMarkingState, linkService`nCongestionMarked
      modifies linkService`nOutOverMtu, linkService`wire, linkService`sendLog, linkService`emitted
      ensures Valid() && ackQueue == [] && attached == received && !idleAckTimer
      ensures linkService.nOutOverMtu == old(linkService.nOutOverMtu) ==>
                AcksSent(EffectiveMtu(linkService.options), linkService.emitted)
                == old(AcksSent(EffectiveMtu(linkService.options), linkService.emitted)) + old(ackQueue)
      ensures linkService.nOutOverMtu != old(linkService.nOutOverMtu) ==>
                |AcksLost(EffectiveMtu(linkService.options), linkService.emitted)|
                > |old(AcksLost(EffectiveMtu(linkService.options), linkService.emitted))|
      ensures !linkService.options.allowCongestionMarking && EffectiveMtu(linkService.options) < 65536 ==>
                linkService.nOutOverMtu == old(linkService.nOutOverMtu)
    {
      hide Represents;
      hide EmissionsMatch;
      hide Ownership;
      hide W.Inv;
      hide AcksSent;
      hide AcksLost;
      ghost var mtu, taken := EffectiveMtu(linkService.options), [];
      idleAckTimer := false;
      assert Valid();
      hide Valid;
      while ackQueue != []
        invariant Valid() && !idleAckTimer
        invariant old(ackQueue) == taken + ackQueue
        invariant linkService.nOutOverMtu >= old(linkService.nOutOverMtu)
        invariant linkService.nOutOverMtu == old(linkService.nOutOverMtu) ==>
                    AcksSent(mtu, linkService.emitted) == old(AcksSent(mtu, linkService.emitted)) + taken
        invariant |AcksLost(mtu, linkService.emitted)|
                  >= |old(AcksLost(mtu, linkService.emitted))|
                     + (if linkService.nOutOverMtu == old(linkService.nOutOverMtu) then 0 else 1)
        invariant !linkService.options.allowCongestionMarking && mtu < 65536 ==>
                    linkService.nOutOverMtu == old(linkService.nOutOverMtu)
        decreases |ackQueue|
      {
        ghost var acks, large := SendIdle();
        taken := taken + acks;
      }
      AllAttached();
    }

    lemma AllAttached()
      requires Valid() && ackQueue == []
      ensures attached == received
    {
    }

    /** One IDLE packet: it takes some Acks, which are sent or lost with it. */
    method SendIdle() returns (ghost acks: seq<u64>, ghost large: bool)
      requires Valid() && linkService.reliability == this && linkService.options.reliable && ackQueue != []
      requires EffectiveMtu(linkService.options) == MTU_UNLIMITED || EffectiveMtu(linkService.options) >= 16
      modifies this`ackQueue, this`attached, linkService`nextMarkTime
      modifies linkService`nMarkedSinceInMarkingState, linkService`nCongestionMarked
      modifies linkService`nOutOverMtu, linkService`wire, linkService`sendLog, linkService`emitted
      ensures Valid() && acks != [] && old(ackQueue) == acks + ackQueue
      ensures linkService.nOutOverMtu == old(linkService.nOutOverMtu) + (if large then 1 else 0)
      ensures var mtu := EffectiveMtu(linkService.options);
              && AcksSent(mtu, linkService.emitted)
                 == old(AcksSent(mtu, linkService.emitted)) + (if large then [] else acks)
              && AcksLost(mtu, linkService.emitted)
                 == old(AcksLost(mtu, linkService.emitted)) + (if large then acks else [])
              && (!linkService.options.allowCongestionMarking && mtu < 65536 ==> !large)
    {
      hide Represents;
      hide EmissionsMatch;
      hide Ownership;
      hide W.Inv;
      hide TimersMatch;
      hide DropsMatch;
      hide AcksAttached;
      hide Overflows;
      hide TooLarge;
      hide AcksSent;
      hide AcksLost;
      ghost var mtu, n, es := EffectiveMtu(linkService.options), |ackQueue|, linkService.emitted;
      IdleCarriesAck(mtu, n);
      UnlimitedFits();
      if 2 <= mtu < 65536 {
        IdleFits(mtu, n);
      }
      linkService.RequestIdlePacket();
      ghost var e := linkService.emitted[|es|];
      AcksStep(mtu, es, e);
      acks, large := e.acks, TooLarge(mtu, Leaving(e));
    }
  }
}
