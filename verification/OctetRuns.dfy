/** The link carries octets: what the peer decodes is what the sender sent, and safety holds over octets. */
module OctetRuns {
  import opened Basics
  import opened LpPackets
  import opened Tlv
  import opened Fragmenter
  import opened LpWire
  import opened LinkSpec
  import opened ReassemblyRuns
  import opened LinkRun
  import R = Reassembler
  import W = TxWindow

  /** A network packet as the link service makes it: an Interest or Data, with header fields in order. */
  predicate IsEncodable(p: LpPacket) {
    && AllCarried(p.headers) && Ascending(p.headers)
    && p.fragment.Some? && IsElement(p.fragment.value)
    && ReadElement(p.fragment.value).value.typ in {INTEREST, DATA}
  }

  ghost predicate AllEncodable(accepted: seq<Message>) {
    forall m :: 0 <= m < |accepted| ==> IsEncodable(accepted[m].p)
  }

  /** What the link may carry for a packet: its encoding, after Acks and a mark have been added. */
  ghost predicate OnLink(sent: LpPacket, bs: Bytes) {
    exists pkt :: Arrives(pkt, sent) && |EncodeBlocks(PacketElements(pkt))| < M64 && bs == EncodePacket(pkt)
  }

  /** The header fields and the payload of a fragment, and when it is bare. */
  lemma PieceShape(o: LinkOptions, g: Message, i: nat, sent: LpPacket, pkt: LpPacket)
    requires GoodMessage(g) && IsEncodable(g.p) && Emitted(o, g, i, sent) && Arrives(pkt, sent)
    ensures pkt.headers == g.p.headers || pkt.headers == []
    ensures pkt.fragment.Some? && pkt.fragment.value != []
    ensures !HasHeader(pkt) ==> pkt.fragment == g.p.fragment
  {
    hide Key;
    hide Join;
    hide ReadElement;
    if g.frags != [g.p] {
      assert IsPiece(g.p, g.frags[i], i, |g.frags|);
    }
  }

  /** Every packet that leaves the sender is one that the codec restores. */
  lemma ArrivesEncodable(o: LinkOptions, accepted: seq<Message>, sent: LpPacket, pkt: LpPacket)
    requires FromSome(o, accepted, sent) && AllEncodable(accepted) && Arrives(pkt, sent)
    requires forall m :: 0 <= m < |accepted| ==> GoodMessage(accepted[m])
    requires |EncodeBlocks(PacketElements(pkt))| < M64
    ensures IsPacket(pkt) && DecodePacket(EncodePacket(pkt)) == Some(pkt)
  {
    hide Emitted;
    hide Arrives;
    hide GoodMessage;
    hide HasHeader;
    hide PacketElements;
    hide EncodeBlocks;
    hide IsElement;
    hide EncodePacket;
    hide DecodePacket;
    var m, i :| 0 <= m < |accepted| && 0 <= i < |accepted[m].frags| && Emitted(o, accepted[m], i, sent);
    PieceShape(o, accepted[m], i, sent, pkt);
    PacketRoundTrip(pkt);
  }

  // ---- runs over octets ----

  /** Octets: the link hands over the encoding of the t-th packet sent. Other: any other step. */
  datatype OctetEvent =
    | Octets(t: nat, endpoint: u64, bs: Bytes, now: nat, rto: nat)
    | Other(e: Event)

  /** The receiver decodes the octets first; what does not decode is malformed. */
  function Decoded(ro: LinkOptions, s: Link, e: OctetEvent): Link
    requires e.Octets?
  {
    match DecodePacket(e.bs)
    case None => s.(results := s.results + [R.Malformed])
    case Some(pkt) => Received(ro, s, e.t, e.endpoint, pkt, e.now, e.rto)
  }

  ghost predicate OctetStep(o: LinkOptions, ro: LinkOptions, s: Link, e: OctetEvent, s': Link) {
    match e
    case Octets(t, endpoint, bs, now, rto) =>
      W.Inv(s.w) && t < |s.sent| && OnLink(s.sent[t], bs) && s' == Decoded(ro, s, e)
    case Other(e) =>
      && !e.Deliver? && (e.Submit? ==> IsEncodable(e.p))
      && Enabled(o, ro, s, e) && s' == Step(o, ro, s, e)
  }

  ghost predicate ReachesOctets(o: LinkOptions, ro: LinkOptions, events: seq<OctetEvent>, s: Link)
    decreases |events|
  {
    if events == [] then s == LinkRun.INITIAL
    else
      var n := |events| - 1;
      exists p :: ReachesOctets(o, ro, events[..n], p) && OctetStep(o, ro, p, events[n], s)
  }

  lemma AllGood(o: LinkOptions, s: Link, t: nat)
    requires SenderInv(o, s) && t < |s.sent|
    ensures FromSome(o, s.accepted, s.sent[t])
    ensures forall m :: 0 <= m < |s.accepted| ==> GoodMessage(s.accepted[m])
  {
    hide WindowInv;
    hide GoodMessage;
    SentKnown(o, s, t);
  }

  /** The receiver decodes the packet that the octets were made of. */
  lemma DecodesSent(o: LinkOptions, s: Link, t: nat, bs: Bytes) returns (pkt: LpPacket)
    requires SenderInv(o, s) && AllEncodable(s.accepted) && t < |s.sent| && OnLink(s.sent[t], bs)
    ensures Arrives(pkt, s.sent[t]) && DecodePacket(bs) == Some(pkt)
  {
    hide SenderInv;
    hide FromSome;
    hide GoodMessage;
    hide IsEncodable;
    hide Arrives;
    hide DecodePacket;
    hide EncodePacket;
    hide PacketElements;
    hide IsPacket;
    pkt :| Arrives(pkt, s.sent[t]) && |EncodeBlocks(PacketElements(pkt))| < M64 && bs == EncodePacket(pkt);
    AllGood(o, s, t);
    ArrivesEncodable(o, s.accepted, s.sent[t], pkt);
  }

  /** One step over octets is one step over packets. */
  lemma StepOverOctets(o: LinkOptions, ro: LinkOptions, s: Link, e: OctetEvent, s': Link) returns (d: Event)
    requires LinkInv(o, s) && AllEncodable(s.accepted) && OctetStep(o, ro, s, e, s')
    ensures Enabled(o, ro, s, d) && s' == Step(o, ro, s, d) && AllEncodable(s'.accepted)
  {
    hide SenderInv;
    hide ReceiverInv;
    hide AckInv;
    hide IsEncodable;
    hide Receive;
    hide Arrives;
    hide DecodePacket;
    hide OnLink;
    hide W.Inv;
    if e.Octets? {
      var pkt := DecodesSent(o, s, e.t, e.bs);
      d := Deliver(e.t, e.endpoint, pkt, e.now, e.rto);
    } else {
      d := e.e;
      OnlySubmitAccepts(o, ro, s, d);
      hide Step;
      hide Enabled;
    }
  }

  lemma OnlySubmitAccepts(o: LinkOptions, ro: LinkOptions, s: Link, e: Event)
    requires Enabled(o, ro, s, e)
    ensures e.Submit? ==> Step(o, ro, s, e).accepted == s.accepted + [NextMessage(s, e.p, e.frags)]
    ensures !e.Submit? ==> Step(o, ro, s, e).accepted == s.accepted
  {
    hide Receive;
    hide Admit;
    hide W.ProcessAck;
    hide W.Lose;
    hide AllOutgoing;
  }

  /** Every run over octets is a run over packets: the peer decodes exactly what was sent. */
  lemma {:induction false} OctetRunIsRun(o: LinkOptions, ro: LinkOptions, events: seq<OctetEvent>, s: Link)
    returns (run: seq<Event>)
    requires ReachesOctets(o, ro, events, s)
    ensures Reaches(o, ro, run, s) && |run| == |events| && AllEncodable(s.accepted)
    decreases |events|
  {
    hide OctetStep;
    hide Enabled;
    hide Step;
    hide LinkInv;
    if events == [] {
      run := [];
    } else {
      var n := |events| - 1;
      var p :| ReachesOctets(o, ro, events[..n], p) && OctetStep(o, ro, p, events[n], s);
      var before := OctetRunIsRun(o, ro, events[..n], p);
      EveryLinkRun(o, ro, before, p);
      var d := StepOverOctets(o, ro, p, events[n], s);
      run := before + [d];
      assert run[..n] == before && run[n] == d;
    }
  }

  /** End-to-end safety over octets. In every run with at most 2^64 Sequences, in which the link carries
      nothing but encodings of packets sent: all octets decode, nothing is malformed, and every packet
      handed up is one that the sender accepted, with its octets and headers. */
  lemma OctetEndToEnd(o: LinkOptions, ro: LinkOptions, events: seq<OctetEvent>, s: Link, i: nat)
    requires ReachesOctets(o, ro, events, s) && s.nSeq <= M64 && i < |s.results|
    ensures !s.results[i].Malformed?
    ensures s.results[i].Delivered? ==>
              exists n :: 0 <= n < |s.accepted| && IsDelivery(s.accepted[n], s.results[i].netPkt, s.results[i].first)
  {
    var run := OctetRunIsRun(o, ro, events, s);
    EndToEndSafety(o, ro, run, s, i);
  }
}
