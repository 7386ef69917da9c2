/** GenericLinkService as functions: what sendNetPacket emits and what doReceivePacket delivers. */
module LinkSpec {
  import opened Basics
  import opened LpPackets
  import opened Tlv
  import opened Fragmenter
  import opened SendPath
  import D = Duplicates
  import R = Reassembler
  import W = TxWindow

  datatype LinkOptions = LinkOptions(
    reliable: bool,
    window: W.Options,
    allowCongestionMarking: bool,
    marking: MarkingOptions,
    allowFragmentation: bool,
    maxFragments: nat,
    allowReassembly: bool,
    reassembler: R.Options,
    overrideMtu: int,
    transportMtu: int)

  /** `getEffectiveMtu`: MTU_UNLIMITED is negative, so an unlimited transport wins. */
  function EffectiveMtu(o: LinkOptions): int {
    Min(o.overrideMtu, o.transportMtu)
  }

  const RESERVED_HEADER_SPACE: nat := 3 + 1 + 8
  const CONGESTION_MARK_SIZE: nat := 3 + 1 + 8

  /** The MTU left for fragments after space is made for feature fields. */
  function FragmentMtu(o: LinkOptions): int {
    var m := EffectiveMtu(o);
    var m' := if o.reliable && m != MTU_UNLIMITED then m - RESERVED_HEADER_SPACE else m;
    if o.allowCongestionMarking && m' != MTU_UNLIMITED then m' - CONGESTION_MARK_SIZE else m'
  }

  /** A packet as doSendInterest, doSendData and doSendNack make it: a network-layer packet with
      header fields, but none of those that belong to the link. */
  predicate IsNetPacket(p: LpPacket) {
    && p.fragment.Some? && IsElement(p.fragment.value) && |p.fragment.value| < M64
    && p == p.(sequence := None, fragIndex := None, fragCount := None, acks := [], txSequence := None)
  }

  // ---- what is sent ----

  /** The n-th Sequence assigned: the counter starts at -2, so the first one is 2^64 - 1. */
  function SequenceNumber(n: nat): u64 {
    Key(M64 - 1 + n)
  }

  predicate UsesSequences(o: LinkOptions, n: nat) {
    o.reliable || n > 1
  }

  /** Fragment i of n after assignSequences and handleOutgoing, when nSeq Sequences and nTx
      TxSequences have been used before. */
  function Outgoing(o: LinkOptions, frag: LpPacket, i: nat, n: nat, nSeq: nat, nTx: nat): LpPacket {
    var f := if UsesSequences(o, n) then frag.(sequence := Some(SequenceNumber(nSeq + i))) else frag;
    if o.reliable then W.Numbered(f, nTx + i) else f
  }

  /** frags are what sendNetPacket makes of p. */
  ghost predicate IsSplit(p: LpPacket, frags: seq<LpPacket>)
    requires p.fragment.Some?
  {
    frags == [p] || Fragmented(p, frags)
  }

  /** Attaching nothing but a congestion mark keeps the packet within the MTU. */
  predicate Fits(o: LinkOptions, pkt: LpPacket) {
    var mtu := EffectiveMtu(o);
    mtu != MTU_UNLIMITED ==>
      && WireSize(pkt) <= mtu
      && (o.allowCongestionMarking ==> WireSize(pkt.(congestionMark := Some(1))) <= mtu)
  }

  /** A TxSequence takes 12 octets of the value and a congestion mark at most 5. */
  lemma FeatureSizes(f: LpPacket, tx: u64)
    ensures ValueSize(f.(congestionMark := Some(1))) <= ValueSize(f) + 5
    ensures f.txSequence.None? ==> ValueSize(f.(txSequence := Some(tx))) == ValueSize(f) + 12
    ensures f.sequence.None? ==> ValueSize(f) <= ValueSize(f.(sequence := Some(tx)))
  {
  }

  /** The MTU budget of one fragment. */
  lemma Budget(o: LinkOptions, frag: LpPacket, i: nat, n: nat, nSeq: nat, nTx: nat)
    requires EffectiveMtu(o) >= 24
    requires frag.sequence.None? && frag.txSequence.None? && FitsWithSequence(frag, FragmentMtu(o))
    ensures Fits(o, Outgoing(o, frag, i, n, nSeq, nTx))
  {
    hide WireSize;
    hide ValueSize;
    hide Key;
    var s, t := SequenceNumber(nSeq + i), Key(nTx + i);
    var f := if UsesSequences(o, n) then frag.(sequence := Some(s)) else frag;
    var g := Outgoing(o, frag, i, n, nSeq, nTx);
    assert ValueSize(frag.(sequence := Some(s))) + 10 <= FragmentMtu(o);
    FeatureSizes(frag, s);
    FeatureSizes(f, t);
    FeatureSizes(g, t);
    WireBound(g);
    WireBound(g.(congestionMark := Some(1)));
  }

  /** No fragment of the packet can be made within the MTU. */
  predicate CannotSplit(o: LinkOptions, p: LpPacket)
    requires p.fragment.Some?
    requires FragmentMtu(o) == MTU_UNLIMITED || FragmentMtu(o) >= 0
  {
    o.allowFragmentation && FragmentMtu(o) != MTU_UNLIMITED && Fails(p, FragmentMtu(o), o.maxFragments)
  }

  function AllOutgoing(o: LinkOptions, frags: seq<LpPacket>, nSeq: nat, nTx: nat): (r: seq<LpPacket>) {
    seq(|frags|, i requires 0 <= i < |frags| => Outgoing(o, frags[i], i, |frags|, nSeq, nTx))
  }

  /** The fragments as handleOutgoing gets them. */
  function SequencedAll(o: LinkOptions, frags: seq<LpPacket>, nSeq: nat): (r: seq<LpPacket>) {
    seq(|frags|, i requires 0 <= i < |frags| =>
      if UsesSequences(o, |frags|) then frags[i].(sequence := Some(SequenceNumber(nSeq + i))) else frags[i])
  }

  /** What sendNetPacket does to the send window. */
  function Admit(o: LinkOptions, w: W.State, frags: seq<LpPacket>, nSeq: nat, p: LpPacket, isInterest: bool)
    : W.Outcome
  {
    if o.reliable then W.HandleOutgoing(w, SequencedAll(o, frags, nSeq), p, isInterest) else W.Done(w)
  }

  predicate AllSent(o: LinkOptions, pkts: seq<LpPacket>) {
    forall i :: 0 <= i < |pkts| ==> Fits(o, pkts[i])
  }

  /** Fragments carry only what the packet carried, besides their index. A single one carries no
      index at all. */
  lemma NotIndexed(p: LpPacket, frags: seq<LpPacket>)
    requires IsNetPacket(p) && IsSplit(p, frags)
    ensures frags != [] && (|frags| == 1 ==> !IsIndexed(frags[0]))
    ensures forall i :: 0 <= i < |frags| ==>
              frags[i].fragment.Some? && frags[i].sequence.None? && frags[i].txSequence.None?
  {
    hide Join;
    hide IsElement;
    if frags != [p] {
      forall i | 0 <= i < |frags|
        ensures frags[i].fragment.Some? && frags[i].sequence.None? && frags[i].txSequence.None?
      {
        assert IsPiece(p, frags[i], i, |frags|);
      }
    }
  }

  /** The MTU budget: with fragmentation and an MTU of at least 24, everything emitted fits. */
  lemma AllBudget(o: LinkOptions, frags: seq<LpPacket>, nSeq: nat, nTx: nat)
    requires forall i :: 0 <= i < |frags| ==> frags[i].sequence.None? && frags[i].txSequence.None?
    ensures EffectiveMtu(o) >= 24 && AllFit(frags, FragmentMtu(o)) ==> AllSent(o, AllOutgoing(o, frags, nSeq, nTx))
  {
    hide WireSize;
    hide FitsWithSequence;
    hide Outgoing;
    hide Fits;
    if EffectiveMtu(o) >= 24 && AllFit(frags, FragmentMtu(o)) {
      forall i | 0 <= i < |frags|
        ensures Fits(o, Outgoing(o, frags[i], i, |frags|, nSeq, nTx))
      {
        Budget(o, frags[i], i, |frags|, nSeq, nTx);
      }
    }
  }

  // ---- the same in terms of the options alone ----

  /** An MTU override is never negative; a transport is unlimited or has a limit. */
  predicate ProperMtus(o: LinkOptions) {
    o.overrideMtu >= 0 && (o.transportMtu == -1 || o.transportMtu >= 0)
  }

  /** A packet is over the MTU exactly if the transport has a limit and the packet exceeds that limit or
      the override. */
  lemma TooLargeExactly(o: LinkOptions, p: LpPacket)
    requires ProperMtus(o)
    ensures TooLarge(EffectiveMtu(o), p) <==>
            o.transportMtu != -1 && (WireSize(p) > o.overrideMtu || WireSize(p) > o.transportMtu)
  {
    hide WireSize;
  }

  /** Octets set aside: 12 for a TxSequence and 12 for a congestion mark. */
  function Reserve(o: LinkOptions): nat {
    (if o.reliable then 12 else 0) + (if o.allowCongestionMarking then 12 else 0)
  }

  /** n octets, and what is set aside, are within both limits. */
  predicate WithinLimits(o: LinkOptions, n: int) {
    n + Reserve(o) <= o.overrideMtu && n + Reserve(o) <= o.transportMtu
  }

  /** With fragmentation and limits of at least 24, a packet stays whole exactly if it leaves 30 octets
      besides what is set aside. It cannot be sent exactly if it does not stay whole and 51 octets and its
      headers are too many for a fragment, or too many fragments are needed. */
  lemma SplitNumbers(o: LinkOptions, p: LpPacket)
    requires p.fragment.Some? && o.allowFragmentation && o.overrideMtu >= 24 && o.transportMtu >= 24
    ensures FragmentMtu(o) == Min(o.overrideMtu, o.transportMtu) - Reserve(o) >= 0
    ensures MAX_SINGLE_FRAG_OVERHEAD + WireSize(p) <= FragmentMtu(o) <==> WithinLimits(o, 30 + WireSize(p))
    ensures CannotSplit(o, p) <==>
            && !WithinLimits(o, 30 + WireSize(p))
            && (!WithinLimits(o, 51 + HeaderSize(p)) || PieceCount(p, FragmentMtu(o)) > o.maxFragments)
  {
    hide WireSize;
    hide HeaderSize;
    hide PieceCount;
  }

  /** g is frag with its numbers: a Sequence if one is due, a TxSequence if reliability is on. */
  predicate HasNumbers(o: LinkOptions, frag: LpPacket, g: LpPacket, n: nat, seqNo: nat, txNo: nat) {
    && g == frag.(sequence := g.sequence, txSequence := g.txSequence)
    && g.sequence == (if o.reliable || n > 1
                      then Some((seqNo + 0xffff_ffff_ffff_ffff) % 0x1_0000_0000_0000_0000) else None)
    && g.txSequence == (if o.reliable then Some(txNo % 0x1_0000_0000_0000_0000) else None)
  }

  /** Numbers on what is sent: without reliability a whole packet is sent as it is; otherwise the i-th
      fragment has the next Sequence modulo 2^64, and the next TxSequence if and only if reliability is on. */
  lemma OutgoingNumbers(o: LinkOptions, frags: seq<LpPacket>, nSeq: nat, nTx: nat)
    requires forall i :: 0 <= i < |frags| ==> frags[i].sequence.None? && frags[i].txSequence.None?
    ensures !o.reliable && |frags| == 1 ==> AllOutgoing(o, frags, nSeq, nTx) == frags
    ensures |AllOutgoing(o, frags, nSeq, nTx)| == |frags|
    ensures forall i :: 0 <= i < |frags| ==>
              HasNumbers(o, frags[i], AllOutgoing(o, frags, nSeq, nTx)[i], |frags|, nSeq + i, nTx + i)
  {
    hide Key;
    forall i | 0 <= i < |frags|
      ensures HasNumbers(o, frags[i], AllOutgoing(o, frags, nSeq, nTx)[i], |frags|, nSeq + i, nTx + i)
    {
      KeyIsRemainder(M64 - 1 + nSeq + i);
      KeyIsRemainder(nTx + i);
    }
  }

  // ---- what is received ----

  /** recent: the duplicate suppression of LpReliability; partials: the reassembler. */
  datatype Receiver = Receiver(recent: D.Recent, partials: R.Partials)

  const IDLE_RECEIVER := Receiver(D.NOTHING, map[])

  /** Duplicate suppression of one received packet. */
  function RecentAfter(r: D.Recent, pkt: LpPacket, now: nat, rto: nat): (D.Recent, bool) {
    if pkt.fragment.Some? && pkt.txSequence.Some? && pkt.sequence.Some?
    then D.Receive(r, pkt.sequence.value, now, rto)
    else (r, false)
  }

  predicate IsIndexed(pkt: LpPacket) {
    pkt.fragIndex.Some? || pkt.fragCount.Some?
  }

  /** `doReceivePacket` without the Acks of the packet. */
  function Receive(o: LinkOptions, r: Receiver, endpoint: u64, pkt: LpPacket, now: nat, rto: nat)
    : (Receiver, R.Result)
  {
    var (recent, isDuplicate) := if o.reliable then RecentAfter(r.recent, pkt, now, rto) else (r.recent, false);
    var r' := r.(recent := recent);
    if isDuplicate || pkt.fragment.None? || (IsIndexed(pkt) && !o.allowReassembly) then (r', R.Dropped)
    else
      var (partials, result) := R.Add(o.reassembler, r.partials, endpoint, pkt, now);
      (r'.(partials := partials), result)
  }
}
