/** What sendLpPacket adds to a packet: piggybacked Acks and congestion marks, as functions. */
module SendPath {
  import opened Basics
  import opened LpPackets

  /** An MTU is a number of octets or MTU_UNLIMITED. */
  const MTU_UNLIMITED := -1

  // ---- piggybacking ----

  const ACK_SIZE := 12

  /** Octets that `piggyback` considers available for Acks; negative if the packet is too large. */
  function AckSpace(pkt: LpPacket, mtu: int): int {
    var size := WireSize(pkt);
    (if mtu == MTU_UNLIMITED then MAX_NDN_PACKET_SIZE else mtu)
    - (VarSize(MAX_NDN_PACKET_SIZE) - VarSize(size)) - size
  }

  /** How many of n queued Acks `piggyback` attaches. */
  function AcksAttached(pkt: LpPacket, mtu: int, n: nat): (k: nat)
    ensures k <= n && (k > 0 ==> ACK_SIZE * k <= AckSpace(pkt, mtu))
    ensures k < n ==> ACK_SIZE * (k + 1) > AckSpace(pkt, mtu)
  {
    if AckSpace(pkt, mtu) < ACK_SIZE then 0 else Min(n, AckSpace(pkt, mtu) / ACK_SIZE)
  }

  /** Attaching k Acks grows the value by 12 octets each and the TLV-LENGTH as needed. */
  lemma AckGrowth(pkt: LpPacket, q: seq<u64>)
    requires EncodesAsLpPacket(pkt)
    ensures ValueSize(pkt.(acks := pkt.acks + q)) == ValueSize(pkt) + 12 * |q|
    ensures WireSize(pkt.(acks := pkt.acks + q))
            == WireSize(pkt) + 12 * |q| + VarSize(ValueSize(pkt) + 12 * |q|) - VarSize(ValueSize(pkt))
  {
    var p := pkt.(acks := pkt.acks + q);
    assert ElementSize(ACK, 8) == 12;
    assert HeaderSize(p) == HeaderSize(pkt) + 12 * |q|;
    assert EncodesAsLpPacket(p);
  }

  /** The packets for which the TLV-LENGTH reserve of `piggyback` is computed too small: the whole
      packet already needs a 3-octet VAR-NUMBER, its value does not. Attaching Acks then overshoots
      when they fill the packet to its last two octets. */
  predicate AcksOvershoot(pkt: LpPacket, mtu: nat, n: nat) {
    && 253 <= WireSize(pkt) <= 254
    && mtu >= WireSize(pkt) + 12
    && n >= (mtu - WireSize(pkt)) / 12
    && (mtu - WireSize(pkt)) % 12 < 2
  }

  /** A packet that fits still fits with its piggybacked Acks, for every MTU below 65536, except
      exactly in the case AcksOvershoot; then it exceeds the MTU by at most 2 octets. */
  lemma PiggybackFits(pkt: LpPacket, mtu: nat, q: seq<u64>)
    requires EncodesAsLpPacket(pkt) && WireSize(pkt) <= mtu < 65536
    ensures var p := pkt.(acks := pkt.acks + q[..AcksAttached(pkt, mtu, |q|)]);
            && (WireSize(p) > mtu <==> AcksOvershoot(pkt, mtu, |q|))
            && WireSize(p) <= mtu + 2
  {
    var k := AcksAttached(pkt, mtu, |q|);
    AckGrowth(pkt, q[..k]);
    var size, value := WireSize(pkt), ValueSize(pkt);
    assert size == 1 + VarSize(value) + value;
    assert |q[..k]| == k;
  }

  /** The bound does fail: 253 octets, an MTU of 265 and one Ack make 267 octets. */
  lemma OvershootHappens()
    ensures exists pkt: LpPacket, mtu: nat, q: seq<u64> ::
              && EncodesAsLpPacket(pkt) && WireSize(pkt) <= mtu < 65536 && AcksOvershoot(pkt, mtu, |q|)
              && WireSize(pkt.(acks := pkt.acks + q[..AcksAttached(pkt, mtu, |q|)])) == mtu + 2
  {
    var pkt := EMPTY.(sequence := Some(1), fragment := Some(seq(239, _ => 0)));
    var q: seq<u64> := [7];
    assert WireSize(pkt) == 253;
    assert AcksAttached(pkt, 265, |q|) == 1;
    AckGrowth(pkt, q[..1]);
    PiggybackFits(pkt, 265, q);
  }

  /** An Ack fits on an IDLE packet exactly when the MTU is at least 16. */
  lemma IdleCarriesAck(mtu: int, n: nat)
    requires mtu == MTU_UNLIMITED || mtu >= 0
    requires n > 0
    ensures AcksAttached(EMPTY, mtu, n) > 0 <==> mtu == MTU_UNLIMITED || mtu >= 16
  {
    assert WireSize(EMPTY) == 2;
  }

  // ---- what leaves sendLpPacket ----

  /** One call of sendLpPacket: the packet passed, the Acks attached to it, and whether it was marked. */
  datatype Emission = Emission(passed: LpPacket, acks: seq<u64>, marked: bool)

  /** The packet as it stands before the MTU test. */
  function Leaving(e: Emission): LpPacket {
    var p := e.passed.(acks := e.passed.acks + e.acks);
    if e.marked then p.(congestionMark := Some(1)) else p
  }

  predicate TooLarge(mtu: int, p: LpPacket) {
    mtu != MTU_UNLIMITED && WireSize(p) > mtu
  }

  lemma UnlimitedFits()
    ensures forall p :: !TooLarge(MTU_UNLIMITED, p)
  {
  }

  /** The packets that reach the transport. */
  function OnWire(mtu: int, es: seq<Emission>): seq<LpPacket> {
    if es == [] then []
    else
      var p := Leaving(es[|es| - 1]);
      OnWire(mtu, es[..|es| - 1]) + (if TooLarge(mtu, p) then [] else [p])
  }

  /** The Acks on all packets, on those that reach the transport, and on those that do not. */
  function AcksOf(es: seq<Emission>): seq<u64> {
    if es == [] then [] else AcksOf(es[..|es| - 1]) + es[|es| - 1].acks
  }

  function AcksSent(mtu: int, es: seq<Emission>): seq<u64> {
    if es == [] then []
    else
      var e := es[|es| - 1];
      AcksSent(mtu, es[..|es| - 1]) + (if TooLarge(mtu, Leaving(e)) then [] else e.acks)
  }

  function AcksLost(mtu: int, es: seq<Emission>): seq<u64> {
    if es == [] then []
    else
      var e := es[|es| - 1];
      AcksLost(mtu, es[..|es| - 1]) + (if TooLarge(mtu, Leaving(e)) then e.acks else [])
  }

  lemma AcksStep(mtu: int, es: seq<Emission>, e: Emission)
    ensures var large := TooLarge(mtu, Leaving(e));
            && AcksSent(mtu, es + [e]) == AcksSent(mtu, es) + (if large then [] else e.acks)
            && AcksLost(mtu, es + [e]) == AcksLost(mtu, es) + (if large then e.acks else [])
  {
    assert (es + [e])[..|es|] == es;
  }

  /** No Ack is on two packets: every attached Ack is sent or lost. */
  lemma {:induction false} AcksSplit(mtu: int, es: seq<Emission>)
    ensures multiset(AcksOf(es)) == multiset(AcksSent(mtu, es)) + multiset(AcksLost(mtu, es))
    decreases |es|
  {
    hide TooLarge;
    if es != [] {
      AcksSplit(mtu, es[..|es| - 1]);
    }
  }

  /** The counters and logs of the link service agree with the emissions. */
  ghost predicate EmissionsMatch(mtu: int, es: seq<Emission>, passed: seq<LpPacket>, wire: seq<LpPacket>,
                                 attached: seq<u64>, nOutOverMtu: nat) {
    && |passed| == |es| && (forall i :: 0 <= i < |es| ==> es[i].passed == passed[i])
    && wire == OnWire(mtu, es) && attached == AcksOf(es) && nOutOverMtu == |es| - |wire|
  }

  lemma NothingEmitted(mtu: int)
    ensures EmissionsMatch(mtu, [], [], [], [], 0)
  {
  }

  lemma EmissionAdded(mtu: int, es: seq<Emission>, passed: seq<LpPacket>, wire: seq<LpPacket>, attached: seq<u64>,
                      nOutOverMtu: nat, e: Emission)
    requires EmissionsMatch(mtu, es, passed, wire, attached, nOutOverMtu)
    ensures var p, large := Leaving(e), TooLarge(mtu, Leaving(e));
            EmissionsMatch(mtu, es + [e], passed + [e.passed], if large then wire else wire + [p], attached + e.acks,
                           if large then nOutOverMtu + 1 else nOutOverMtu)
  {
    hide TooLarge;
    assert (es + [e])[..|es|] == es;
  }

  /** Octets of the LpPacket value once k Acks are attached and the packet is marked or not. */
  function ValueWith(pkt: LpPacket, k: nat, marked: bool): int {
    ValueSize(pkt) + ACK_SIZE * k + (if marked then 5 - NniFieldSize(pkt.congestionMark, CONGESTION_MARK) else 0)
  }

  /** The packet, with the Acks that piggyback attaches and possibly a mark, exceeds the MTU. This
      depends on the packet, the MTU and the length of the Ack queue only. */
  predicate Overflows(pkt: LpPacket, mtu: nat, n: nat, marked: bool) {
    var v := ValueWith(pkt, AcksAttached(pkt, mtu, n), marked);
    v >= 0 && 1 + VarSize(v) + v > mtu
  }

  /** A packet is dropped exactly in the case Overflows: the mark comes after the Acks have taken the
      space. */
  lemma DroppedExactly(pkt: LpPacket, mtu: nat, q: seq<u64>, marked: bool)
    requires EncodesAsLpPacket(pkt)
    ensures TooLarge(mtu, Leaving(Emission(pkt, q[..AcksAttached(pkt, mtu, |q|)], marked)))
            <==> Overflows(pkt, mtu, |q|, marked)
  {
    var k := AcksAttached(pkt, mtu, |q|);
    hide AcksAttached;
    var p := pkt.(acks := pkt.acks + q[..k]);
    AckGrowth(pkt, q[..k]);
    assert |q[..k]| == k;
    assert EncodesAsLpPacket(p);
    MarkGrowth(p);
  }

  lemma MarkGrowth(p: LpPacket)
    ensures EncodesAsLpPacket(p.(congestionMark := Some(1)))
    ensures ValueSize(p.(congestionMark := Some(1)))
            == ValueSize(p) + 5 - NniFieldSize(p.congestionMark, CONGESTION_MARK)
  {
  }

  /** Such a packet: an IDLE packet that carries one Ack within an MTU of 16 has 16 octets, and 19
      with a mark. Without the Ack the marked packet would fit. */
  lemma MarkOverflows()
    ensures exists pkt: LpPacket, mtu: nat, q: seq<u64> ::
              && EncodesAsLpPacket(pkt) && !TooLarge(mtu, pkt.(congestionMark := Some(1)))
              && !Overflows(pkt, mtu, |q|, false) && Overflows(pkt, mtu, |q|, true)
              && WireSize(Leaving(Emission(pkt, q[..AcksAttached(pkt, mtu, |q|)], true))) == mtu + 3
  {
    var q: seq<u64> := [7];
    assert ValueSize(EMPTY) == 0 && AcksAttached(EMPTY, 16, |q|) == 1;
    AckGrowth(EMPTY, q[..1]);
    MarkGrowth(EMPTY);
    var p := EMPTY.(acks := EMPTY.acks + q[..1]);
    MarkGrowth(p);
    assert Overflows(EMPTY, 16, |q|, true) && !Overflows(EMPTY, 16, |q|, false);
    assert WireSize(Leaving(Emission(EMPTY, q[..AcksAttached(EMPTY, 16, |q|)], true))) == 16 + 3;
    assert !TooLarge(16, EMPTY.(congestionMark := Some(1)));
  }

  /** An IDLE packet that is not marked never overflows an MTU below 65536. */
  lemma IdleFits(mtu: nat, n: nat)
    requires 2 <= mtu < 65536
    ensures !Overflows(EMPTY, mtu, n, false)
  {
    assert WireSize(EMPTY) == 2 && ValueSize(EMPTY) == 0;
  }

  // ---- congestion marking ----

  /** nextMark: m_nextMarkTime, None for time_point::max(); count: m_nMarkedSinceInMarkingState. */
  datatype Marking = Marking(nextMark: Option<nat>, count: nat)

  datatype MarkingOptions = MarkingOptions(threshold: nat, base: nat)

  /** i is base / sqrt(n) rounded towards zero. */
  predicate IsInterval(base: nat, n: nat, i: nat) {
    i * i * n <= base * base < (i + 1) * (i + 1) * n
  }

  function IntervalUpTo(base: nat, n: nat, i: nat): (r: nat)
    requires n > 0 && base * base < (i + 1) * (i + 1) * n
    ensures IsInterval(base, n, r)
  {
    if i * i * n <= base * base then i else IntervalUpTo(base, n, i - 1)
  }

  lemma IntervalBound(base: nat, n: nat)
    requires n > 0
    ensures base * base < (base + 1) * (base + 1) * n
  {
    var b := (base + 1) * (base + 1);
    assert base * base < b;
    assert b <= b * n;
  }

  /** `base / std::sqrt(n)` converted to a whole number of nanoseconds. */
  function Interval(base: nat, n: nat): (r: nat)
    requires n > 0
    ensures IsInterval(base, n, r)
  {
    IntervalBound(base, n);
    IntervalUpTo(base, n, base)
  }

  /** `checkCongestionLevel`: new marking state, and whether the packet is marked. */
  function Check(o: MarkingOptions, m: Marking, queueLength: int, now: nat): (Marking, bool) {
    if queueLength < 0 then (m, false)
    else if queueLength > o.threshold then
      if m.nextMark.None? then (m.(nextMark := Some(now + o.base)), false)
      else if now >= m.nextMark.value then
        (Marking(Some(m.nextMark.value + Interval(o.base, m.count + 2)), m.count + 1), true)
      else (m, false)
    else if m.nextMark.Some? then (Marking(None, 0), false)
    else (m, false)
  }
}
