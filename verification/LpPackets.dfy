/** The NDNLPv2 packet (`lp::Packet`) as a record of its fields, and the size of its encoding. */
module LpPackets {
  import opened Basics

  /** A header field carried along unchanged: PitToken, Nack, IncomingFaceId, NonDiscovery, ... */
  datatype Field = Field(typ: nat, value: seq<byte>)

  datatype LpPacket = LpPacket(
    sequence: Option<u64>,
    fragIndex: Option<u64>,
    fragCount: Option<u64>,
    headers: seq<Field>,
    congestionMark: Option<u64>,
    acks: seq<u64>,
    txSequence: Option<u64>,
    fragment: Option<seq<byte>>)

  /** `lp::Packet{}`: no field at all. */
  const EMPTY := LpPacket(None, None, None, [], None, [], None, None)

  /** Octets of a VAR-NUMBER. */
  function VarSize(n: nat): (r: nat)
    ensures r in {1, 3, 5, 9}
  {
    if n < 253 then 1 else if n <= 0xffff then 3 else if n <= 0xffff_ffff then 5 else 9
  }

  /** Octets of a NonNegativeInteger. */
  function NniSize(n: nat): (r: nat)
    ensures r in {1, 2, 4, 8}
  {
    if n <= 0xff then 1 else if n <= 0xffff then 2 else if n <= 0xffff_ffff then 4 else 8
  }

  /** Octets of a whole TLV element. */
  function ElementSize(typ: nat, valueSize: nat): nat {
    VarSize(typ) + VarSize(valueSize) + valueSize
  }

  const LP_PACKET: nat := 100
  const FRAGMENT: nat := 80
  const SEQUENCE: nat := 81
  const FRAG_INDEX: nat := 82
  const FRAG_COUNT: nat := 83
  const CONGESTION_MARK: nat := 832
  const ACK: nat := 836
  const TX_SEQUENCE: nat := 840
  const MAX_NDN_PACKET_SIZE: nat := 8800

  function HeadersSize(hs: seq<Field>): nat {
    if hs == [] then 0 else ElementSize(hs[0].typ, |hs[0].value|) + HeadersSize(hs[1..])
  }

  function SequenceSize(o: Option<u64>, typ: nat): nat {
    if o.None? then 0 else ElementSize(typ, 8)
  }

  function NniFieldSize(o: Option<u64>, typ: nat): nat {
    if o.None? then 0 else ElementSize(typ, NniSize(o.value))
  }

  function FragmentSize(o: Option<seq<byte>>): nat {
    if o.None? then 0 else ElementSize(FRAGMENT, |o.value|)
  }

  /** Octets of every element except Fragment. */
  function HeaderSize(p: LpPacket): nat {
    SequenceSize(p.sequence, SEQUENCE)
    + NniFieldSize(p.fragIndex, FRAG_INDEX)
    + NniFieldSize(p.fragCount, FRAG_COUNT)
    + HeadersSize(p.headers)
    + NniFieldSize(p.congestionMark, CONGESTION_MARK)
    + |p.acks| * ElementSize(ACK, 8)
    + SequenceSize(p.txSequence, TX_SEQUENCE)
  }

  predicate HasHeader(p: LpPacket) {
    p.sequence.Some? || p.fragIndex.Some? || p.fragCount.Some? || p.headers != []
    || p.congestionMark.Some? || p.acks != [] || p.txSequence.Some?
  }

  /** Octets of the LpPacket value: all elements together. */
  function ValueSize(p: LpPacket): nat {
    HeaderSize(p) + FragmentSize(p.fragment)
  }

  /** `wireEncode().size()`: a packet with a Fragment and no header encodes to the bare
      network-layer packet, without an LpPacket around it. */
  function WireSize(p: LpPacket): nat {
    if !HasHeader(p) && p.fragment.Some? then |p.fragment.value|
    else ElementSize(LP_PACKET, ValueSize(p))
  }

  /** `wireEncode().type() == lp::tlv::LpPacket`. */
  predicate EncodesAsLpPacket(p: LpPacket) {
    HasHeader(p) || p.fragment.None?
  }
}
