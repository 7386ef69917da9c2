/** LpReassembler: partial packets by remote endpoint and message identifier. */
module Reassembler {
  import opened Basics
  import opened LpPackets
  import opened Tlv
  import opened Fragmenter

  datatype Options = Options(nMaxFragments: nat, reassemblyTimeout: nat)

  /** Index key of a partial packet; message is the Sequence of its first fragment. */
  datatype Id = Id(endpoint: u64, message: u64)

  /** A slot holds a fragment once that fragment has a Sequence. dropTimer: when the packet may be
      dropped. */
  datatype Partial = Partial(fragments: seq<LpPacket>, nReceived: nat, dropTimer: Option<nat>)

  type Partials = map<Id, Partial>

  datatype Result = Dropped | Stored | Delivered(netPkt: Bytes, first: LpPacket) | Malformed

  function IndexOf(pkt: LpPacket): u64 {
    if pkt.fragIndex.Some? then pkt.fragIndex.value else 0
  }

  function CountOf(pkt: LpPacket): u64 {
    if pkt.fragCount.Some? then pkt.fragCount.value else 1
  }

  /** `Sequence - FragIndex` on 64-bit numbers. */
  function MessageOf(pkt: LpPacket): u64
    requires pkt.sequence.Some?
  {
    var d := pkt.sequence.value - IndexOf(pkt);
    if d >= 0 then d else d + M64
  }

  predicate HasPayload(pkt: LpPacket) {
    pkt.fragment.Some? && pkt.fragment.value != []
  }

  /** The TLV element that a Block takes from the start of a buffer. */
  function FirstElement(bs: Bytes): Option<Bytes> {
    match ReadElement(bs)
    case None => None
    case Some(e) => Some(bs[..Size(e)])
  }

  /** `doReassembly`: None where it throws tlv::Error. */
  function Reassembled(frags: seq<LpPacket>): Option<Bytes> {
    if AllPayload(frags) then FirstElement(Join(frags)) else None
  }

  predicate AllPayload(frags: seq<LpPacket>) {
    forall i :: 0 <= i < |frags| ==> HasPayload(frags[i])
  }

  lemma JoinNothing()
    ensures Join([]) == []
  {
  }

  /** The partial packet that a fragment is added to. */
  function Target(m: Partials, k: Id, count: nat): Partial {
    if k in m then m[k] else Partial(seq(count, _ => EMPTY), 0, None)
  }

  /** The fragment is put into its slot of the partial packet. */
  function Store(o: Options, m: Partials, k: Id, pp: Partial, pkt: LpPacket, now: nat): (Partials, Result)
    requires IndexOf(pkt) < |pp.fragments|
  {
    var pp' := pp.(fragments := pp.fragments[IndexOf(pkt) := pkt], nReceived := pp.nReceived + 1);
    if pp'.nReceived == |pp'.fragments| then
      match Reassembled(pp'.fragments)
      case None => (m[k := pp'], Malformed)
      case Some(netPkt) => (m - {k}, Delivered(netPkt, pp'.fragments[0]))
    else (m[k := pp'.(dropTimer := Some(now + o.reassemblyTimeout))], Stored)
  }

  /** `receiveFragment`. */
  function Add(o: Options, m: Partials, endpoint: u64, pkt: LpPacket, now: nat): (Partials, Result) {
    if IndexOf(pkt) >= CountOf(pkt) || CountOf(pkt) > o.nMaxFragments then (m, Dropped)
    else if CountOf(pkt) == 1 then
      (m, if !HasPayload(pkt) then Malformed
          else match FirstElement(pkt.fragment.value)
               case None => Malformed
               case Some(netPkt) => Delivered(netPkt, pkt))
    else if pkt.sequence.None? then (m, Dropped)
    else
      var k := Id(endpoint, MessageOf(pkt));
      var pp := Target(m, k, CountOf(pkt));
      if |pp.fragments| != CountOf(pkt) || pp.fragments[IndexOf(pkt)].sequence.Some? then (m, Dropped)
      else Store(o, m, k, pp, pkt, now)
  }

  // ---- what every step keeps ----

  /** Number of filled slots. */
  function Filled(frags: seq<LpPacket>): (r: nat)
    ensures r <= |frags|
  {
    if frags == [] then 0 else Filled(frags[..|frags| - 1]) + (if frags[|frags| - 1].sequence.Some? then 1 else 0)
  }

  lemma {:induction false} FilledUpdate(frags: seq<LpPacket>, i: nat, pkt: LpPacket)
    requires i < |frags| && frags[i].sequence.None? && pkt.sequence.Some?
    ensures Filled(frags[i := pkt]) == Filled(frags) + 1
  {
    var n := |frags| - 1;
    if i < n {
      FilledUpdate(frags[..n], i, pkt);
      assert frags[i := pkt][..n] == frags[..n][i := pkt];
    } else {
      assert frags[i := pkt][..n] == frags[..n];
    }
  }

  lemma {:induction false} FilledNone(n: nat)
    ensures Filled(seq(n, _ => EMPTY)) == 0
  {
    if n > 0 {
      FilledNone(n - 1);
      assert seq(n, _ => EMPTY)[..n - 1] == seq(n - 1, _ => EMPTY);
    }
  }

  /** The count is the number of filled slots, and each filled slot holds a fragment that belongs
      there. The slots are all filled only while the octets received do not form a packet. */
  ghost predicate PartialInv(k: Id, pp: Partial) {
    && 0 < pp.nReceived == Filled(pp.fragments) <= |pp.fragments|
    && 2 <= |pp.fragments| && pp.dropTimer.Some?
    && (pp.nReceived == |pp.fragments| ==> Reassembled(pp.fragments).None?)
    && forall i :: 0 <= i < |pp.fragments| ==> SlotInv(k, pp.fragments[i], i, |pp.fragments|)
  }

  predicate SlotInv(k: Id, pkt: LpPacket, i: nat, n: nat) {
    || pkt == EMPTY
    || (pkt.sequence.Some? && MessageOf(pkt) == k.message && IndexOf(pkt) == i && CountOf(pkt) == n)
  }

  ghost predicate Inv(m: Partials) {
    forall k :: k in m ==> PartialInv(k, m[k])
  }

  lemma StoreInv(o: Options, m: Partials, k: Id, pp: Partial, pkt: LpPacket, now: nat)
    requires Inv(m) && pkt.sequence.Some?
    requires MessageOf(pkt) == k.message && IndexOf(pkt) < CountOf(pkt) == |pp.fragments| && |pp.fragments| >= 2
    requires pp == Target(m, k, CountOf(pkt)) && pp.fragments[IndexOf(pkt)].sequence.None?
    ensures Inv(Store(o, m, k, pp, pkt, now).0)
  {
    hide Filled;
    hide Reassembled;
    FilledUpdate(pp.fragments, IndexOf(pkt), pkt);
    FilledNone(CountOf(pkt));
    var pp' := pp.(fragments := pp.fragments[IndexOf(pkt) := pkt], nReceived := pp.nReceived + 1);
    assert k in m ==> PartialInv(k, m[k]);
    forall i | 0 <= i < |pp'.fragments|
      ensures SlotInv(k, pp'.fragments[i], i, |pp'.fragments|)
    {
      if i != IndexOf(pkt) {
        assert pp'.fragments[i] == pp.fragments[i];
      }
    }
  }

  datatype Event = Arrival(endpoint: u64, pkt: LpPacket, now: nat) | Timeout(id: Id, now: nat)

  /** A drop timer never fires early. */
  predicate Enabled(m: Partials, e: Event) {
    e.Timeout? ==> e.id in m && m[e.id].dropTimer.Some? && m[e.id].dropTimer.value <= e.now
  }

  function Step(o: Options, m: Partials, e: Event): (Partials, Result) {
    match e
    case Arrival(endpoint, pkt, now) => Add(o, m, endpoint, pkt, now)
    case Timeout(id, now) => (m - {id}, Dropped)
  }

  /** Every step keeps the invariant. */
  lemma StepInv(o: Options, m: Partials, e: Event)
    requires Inv(m)
    ensures Inv(Step(o, m, e).0)
  {
    hide Filled;
    hide Reassembled;
    hide PartialInv;
    if e.Arrival? {
      var pkt := e.pkt;
      if IndexOf(pkt) < CountOf(pkt) <= o.nMaxFragments && CountOf(pkt) > 1 && pkt.sequence.Some? {
        var k := Id(e.endpoint, MessageOf(pkt));
        var pp := Target(m, k, CountOf(pkt));
        if |pp.fragments| == CountOf(pkt) && pp.fragments[IndexOf(pkt)].sequence.None? {
          StoreInv(o, m, k, pp, pkt, e.now);
        }
      }
    }
  }

  /** The packet brings the last missing fragment of k, and the octets do not form a packet: some
      fragment is empty, or the fragments joined do not start with a TLV element. */
  predicate CompletesBadly(o: Options, m: Partials, k: Id, pkt: LpPacket) {
    && k in m && pkt.sequence.Some? && MessageOf(pkt) == k.message
    && IndexOf(pkt) < CountOf(pkt) == |m[k].fragments| <= o.nMaxFragments
    && m[k].nReceived + 1 == |m[k].fragments|
    && m[k].fragments[IndexOf(pkt)].sequence.None?
    && Reassembled(m[k].fragments[IndexOf(pkt) := pkt]).None?
  }

  /** After a step a partial packet still lacks some fragment, unless it was complete before or was
      completed badly: exactly then it stays, full, until its drop timer fires. */
  lemma FullExactlyWhenBad(o: Options, m: Partials, e: Event, k: Id)
    requires Inv(m) && k in Step(o, m, e).0
    ensures var pp := Step(o, m, e).0[k];
            pp.nReceived == |pp.fragments| <==>
            || (k in m && m[k].nReceived == |m[k].fragments|)
            || (e.Arrival? && k.endpoint == e.endpoint && CompletesBadly(o, m, k, e.pkt))
  {
    hide Filled;
    hide Reassembled;
    hide SlotInv;
    assert k in m ==> PartialInv(k, m[k]);
    if k in m && m[k].nReceived == |m[k].fragments| && e.Arrival? && e.pkt.sequence.Some? {
      FilledAll(m[k].fragments);
    }
  }

  lemma {:induction false} FilledAll(frags: seq<LpPacket>)
    requires Filled(frags) == |frags|
    ensures forall i :: 0 <= i < |frags| ==> frags[i].sequence.Some?
  {
    if frags != [] {
      var n := |frags| - 1;
      FilledAll(frags[..n]);
      assert forall i :: 0 <= i < n ==> frags[i] == frags[..n][i];
    }
  }

  lemma ZeroesMalformed(a: LpPacket, b: LpPacket)
    requires a.fragment == Some([0]) && b.fragment == Some([0])
    ensures Reassembled([a, b]).None?
  {
    var frags := [a, b];
    assert [a] == frags[..1] && [] == [a][..0];
    assert Join([a]) == [0];
    assert Join(frags) == [0, 0];
    assert ReadElement([0, 0]).None?;
  }

  /** Such a step exists: the second of two fragments completes octets that are no TLV element. */
  lemma MalformedStaysFull()
    ensures exists o: Options, m: Partials, e: Event, k: Id ::
              Inv(m) && k in Step(o, m, e).0 && Step(o, m, e).0[k].nReceived == |Step(o, m, e).0[k].fragments|
  {
    hide Reassembled;
    hide Filled;
    hide SlotInv;
    var o, k := Options(400, 500), Id(0, 7);
    var a := EMPTY.(sequence := Some(7), fragIndex := Some(0), fragCount := Some(2), fragment := Some([0]));
    var b := EMPTY.(sequence := Some(8), fragIndex := Some(1), fragCount := Some(2), fragment := Some([0]));
    var m: Partials := map[k := Partial([a, EMPTY], 1, Some(500))];
    assert seq(2, _ => EMPTY)[0 := a] == [a, EMPTY];
    assert Step(o, map[], Arrival(0, a, 0)).0 == m;
    StepInv(o, map[], Arrival(0, a, 0));
    ZeroesMalformed(a, b);
    assert [a, EMPTY][1 := b] == [a, b];
    assert Step(o, m, Arrival(0, b, 1)).0 == m[k := Partial([a, b], 2, Some(500))];
  }

  // ---- the class ----

  class LpReassembler {
    const options: Options
    var partialPackets: Partials
    /** Arguments of the beforeTimeout signals. */
    var timeouts: seq<(u64, nat)>

    constructor (options: Options)
      ensures this.options == options && partialPackets == map[] && timeouts == []
    {
      this.options, partialPackets, timeouts := options, map[], [];
    }

    /** `receiveFragment` at time now. */
    method ReceiveFragment(remoteEndpoint: u64, packet: LpPacket, now: nat) returns (r: Result)
      requires packet.fragment.Some? && Inv(partialPackets)
      modifies this`partialPackets
      ensures (partialPackets, r) == Add(options, old(partialPackets), remoteEndpoint, packet, now)
      ensures Inv(partialPackets)
    {
      hide Filled;
      hide Join;
      hide PartialInv;
      hide Reassembled;
      StepInv(options, partialPackets, Arrival(remoteEndpoint, packet, now));
      var fragIndex, fragCount := 0, 1;
      if packet.fragIndex.Some? {
        fragIndex := packet.fragIndex.value;
      }
      if packet.fragCount.Some? {
        fragCount := packet.fragCount.value;
      }
      if fragIndex >= fragCount || fragCount > options.nMaxFragments {
        return Dropped;
      }
      if fragIndex == 0 && fragCount == 1 {
        if packet.fragment.value == [] {
          return Malformed;
        }
        var netPkt := FirstElement(packet.fragment.value);
        return if netPkt.None? then Malformed else Delivered(netPkt.value, packet);
      }
      if packet.sequence.None? {
        return Dropped;
      }
      var key := Id(remoteEndpoint, MessageOf(packet));
      ghost var m := partialPackets;
      if key !in partialPackets {
        partialPackets := partialPackets[key := Partial(seq(fragCount, _ => EMPTY), 0, None)];
      } else if fragCount != |partialPackets[key].fragments| {
        return Dropped;
      }
      var pp := partialPackets[key];
      if pp.fragments[fragIndex].sequence.Some? {
        assert key in m;
        return Dropped;
      }
      pp := pp.(fragments := pp.fragments[fragIndex := packet], nReceived := pp.nReceived + 1);
      partialPackets := partialPackets[key := pp];
      assert partialPackets == m[key := pp];
      if pp.nReceived == fragCount {
        var reassembled := DoReassembly(pp.fragments);
        if reassembled.None? {
          return Malformed;
        }
        partialPackets := partialPackets - {key};
        assert partialPackets == m - {key};
        return Delivered(reassembled.value, pp.fragments[0]);
      }
      pp := pp.(dropTimer := Some(now + options.reassemblyTimeout));
      partialPackets := partialPackets[key := pp];
      assert partialPackets == m[key := pp];
      r := Stored;
    }

    /** `doReassembly`: the payloads are copied one after the other into a buffer of their total
        size. */
    method DoReassembly(fragments: seq<LpPacket>) returns (r: Option<Bytes>)
      ensures r == Reassembled(fragments)
    {
      hide ReadElement;
      hide Join;
      var payloadSize := PayloadSize(fragments);
      if payloadSize.None? {
        return None;
      }
      var fragBuffer := new byte[payloadSize.value](_ => 0);
      FillBuffer(fragments, fragBuffer);
      r := FirstElement(fragBuffer[..]);
    }

    /** The sum of the payload sizes; None where a Fragment field is empty. */
    static method PayloadSize(fragments: seq<LpPacket>) returns (r: Option<nat>)
      ensures r.Some? <==> AllPayload(fragments)
      ensures r.Some? ==> r.value == |Join(fragments)|
    {
      hide Join;
      var size, i := 0, 0;
      JoinNothing();
      while i < |fragments|
        invariant 0 <= i <= |fragments|
        invariant AllPayload(fragments[..i])
        invariant size == |Join(fragments[..i])|
      {
        if !HasPayload(fragments[i]) {
          return None;
        }
        JoinAppend(fragments[..i], fragments[i]);
        assert fragments[..i + 1] == fragments[..i] + [fragments[i]];
        size := size + |fragments[i].fragment.value|;
        i := i + 1;
      }
      assert fragments[..i] == fragments;
      return Some(size);
    }

    static method FillBuffer(fragments: seq<LpPacket>, fragBuffer: array<byte>)
      requires AllPayload(fragments) && fragBuffer.Length == |Join(fragments)|
      modifies fragBuffer
      ensures fragBuffer[..] == Join(fragments)
    {
      hide Join;
      var it, k := 0, 0;
      JoinNothing();
      while k < |fragments|
        invariant 0 <= k <= |fragments|
        invariant it == |Join(fragments[..k])| <= fragBuffer.Length
        invariant fragBuffer[..it] == Join(fragments[..k])
      {
        var payload := fragments[k].fragment.value;
        JoinAppend(fragments[..k], fragments[k]);
        assert fragments[..k + 1] == fragments[..k] + [fragments[k]];
        JoinPrefix(fragments, k + 1);
        Copy(payload, fragBuffer, it);
        assert fragBuffer[..it + |payload|] == fragBuffer[..it] + fragBuffer[it..it + |payload|];
        it := it + |payload|;
        k := k + 1;
      }
      assert fragments[..k] == fragments;
      assert fragBuffer[..it] == fragBuffer[..];
    }

    /** `timeoutPartialPacket`. */
    method TimeoutPartialPacket(key: Id)
      requires Inv(partialPackets)
      modifies this`partialPackets, this`timeouts
      ensures Inv(partialPackets) && partialPackets == old(partialPackets) - {key}
      ensures timeouts == old(timeouts)
              + (if key in old(partialPackets)
                 then [(key.endpoint, Filled(old(partialPackets)[key].fragments))] else [])
    {
      hide Filled;
      hide Reassembled;
      if key !in partialPackets {
        assert partialPackets - {key} == partialPackets;
        return;
      }
      assert PartialInv(key, partialPackets[key]);
      timeouts := timeouts + [(key.endpoint, partialPackets[key].nReceived)];
      partialPackets := partialPackets - {key};
    }
  }

  lemma {:induction false} JoinPrefix(frags: seq<LpPacket>, n: nat)
    requires n <= |frags|
    requires forall i :: 0 <= i < |frags| ==> frags[i].fragment.Some?
    ensures |Join(frags[..n])| <= |Join(frags)|
  {
    if n == |frags| {
      assert frags[..n] == frags;
    } else {
      var all := frags[..|frags| - 1];
      JoinPrefix(all, n);
      assert all[..n] == frags[..n];
    }
  }

  /** `std::copy` of octets into a buffer. */
  method Copy(src: Bytes, dst: array<byte>, at: nat)
    requires at + |src| <= dst.Length
    modifies dst
    ensures dst[..at] == old(dst[..at]) && dst[at..at + |src|] == src
  {
    var i := 0;
    while i < |src|
      invariant 0 <= i <= |src|
      invariant dst[..at] == old(dst[..at]) && dst[at..at + i] == src[..i]
    {
      dst[at + i] := src[i];
      i := i + 1;
    }
  }
}
