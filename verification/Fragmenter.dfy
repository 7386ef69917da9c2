/** LpFragmenter: indexed fragmentation of a network packet within an MTU. */
module Fragmenter {
  import opened Basics
  import opened LpPackets

  const MAX_SINGLE_FRAG_OVERHEAD: nat := 1 + 9 + 1 + 1 + 8 + 1 + 9
  const MAX_FRAG_OVERHEAD: nat := 1 + 9 + 1 + 1 + 8 + 1 + 1 + 8 + 1 + 1 + 8 + 1 + 9

  // ---- what fragmentation means ----

  /** The payloads of the fragments, one after the other. */
  function Join(frags: seq<LpPacket>): seq<byte>
    requires forall i :: 0 <= i < |frags| ==> frags[i].fragment.Some?
  {
    if frags == [] then [] else Join(frags[..|frags| - 1]) + frags[|frags| - 1].fragment.value
  }

  /** Fragment i of n: the first one keeps the other fields of the packet. */
  predicate IsPiece(p: LpPacket, frag: LpPacket, i: nat, n: nat)
    requires i < M64 && n < M64
  {
    && frag.fragment.Some? && frag.fragment.value != []
    && frag == (if i == 0 then p else EMPTY).(fragIndex := Some(i), fragCount := Some(n), fragment := frag.fragment)
  }

  /** frags are the fragments of p: at least two, non-empty, numbered, in order, and together they
      carry exactly the payload of p. */
  ghost predicate Fragmented(p: LpPacket, frags: seq<LpPacket>)
    requires p.fragment.Some?
  {
    && 2 <= |frags| < M64
    && (forall i :: 0 <= i < |frags| ==> IsPiece(p, frags[i], i, |frags|))
    && Join(frags) == p.fragment.value
  }

  // ---- sizes ----

  /** The LpPacket TLV around a value is at most 10 octets. */
  lemma WireBound(p: LpPacket)
    ensures WireSize(p) <= ValueSize(p) + 10
  {
  }

  /** A packet that takes the fast path has room for a Sequence and a larger TLV around it. */
  lemma FastPathFits(p: LpPacket, mtu: nat, s: u64)
    requires p.fragment.Some? && MAX_SINGLE_FRAG_OVERHEAD + WireSize(p) <= mtu
    ensures ValueSize(p.(sequence := Some(s))) + 10 <= mtu
  {
    if !HasHeader(p) {
      assert HeaderSize(p) == 0;
    }
  }

  /** A packet that leaves the fast path does not fit into one fragment: its TLV overhead is at most
      20 octets. */
  lemma SlowPathSplits(p: LpPacket, mtu: nat)
    requires p.fragment.Some? && MAX_SINGLE_FRAG_OVERHEAD + WireSize(p) > mtu
    ensures |p.fragment.value| + HeaderSize(p) + MAX_FRAG_OVERHEAD > mtu
  {
  }

  /** A fragment of the computed payload size fits, with its Sequence. */
  lemma PieceFits(p: LpPacket, frag: LpPacket, i: nat, n: nat, mtu: nat, s: u64)
    requires i < M64 && n < M64 && IsPiece(p, frag, i, n)
    requires p.fragIndex.None? && p.fragCount.None?
    requires MAX_FRAG_OVERHEAD + |frag.fragment.value| + (if i == 0 then HeaderSize(p) else 0) <= mtu
    ensures ValueSize(frag) + 10 <= mtu
    ensures ValueSize(frag.(sequence := Some(s))) + 10 <= mtu
  {
  }

  /** The two constants are the largest overheads there are, no more: a payload of 2^32 octets attains them. */
  lemma OverheadsAttained()
    ensures exists p: LpPacket, s: u64 ::
              && p == EMPTY.(fragment := p.fragment) && p.fragment.Some?
              && WireSize(p.(sequence := Some(s))) == |p.fragment.value| + MAX_SINGLE_FRAG_OVERHEAD
    ensures exists p: LpPacket, i: u64, n: u64, s: u64 ::
              && p == EMPTY.(fragment := p.fragment) && p.fragment.Some?
              && WireSize(p.(sequence := Some(s), fragIndex := Some(i), fragCount := Some(n)))
                 == |p.fragment.value| + MAX_FRAG_OVERHEAD
  {
    var size := 0x1_0000_0000;
    var p := EMPTY.(fragment := Some(seq(size, _ => 0)));
    assert |p.fragment.value| == size;
    assert HeadersSize(p.headers) == 0;
    assert WireSize(p.(sequence := Some(0))) == size + MAX_SINGLE_FRAG_OVERHEAD;
    assert WireSize(p.(sequence := Some(0), fragIndex := Some(size), fragCount := Some(size)))
           == size + MAX_FRAG_OVERHEAD;
  }

  /** Every fragment fits the MTU, before and after it is given a Sequence. */
  ghost predicate AllFit(frags: seq<LpPacket>, mtu: nat) {
    forall i :: 0 <= i < |frags| ==> WireSize(frags[i]) <= mtu && FitsWithSequence(frags[i], mtu)
  }

  ghost predicate FitsWithSequence(frag: LpPacket, mtu: nat) {
    forall s: u64 :: ValueSize(frag.(sequence := Some(s))) + 10 <= mtu
  }

  lemma AllPiecesFit(p: LpPacket, frags: seq<LpPacket>, first: nat, payload: nat, mtu: nat)
    requires p.fragment.Some? && p.fragIndex.None? && p.fragCount.None? && Fragmented(p, frags)
    requires first + HeaderSize(p) + MAX_FRAG_OVERHEAD <= mtu && payload + MAX_FRAG_OVERHEAD <= mtu
    requires forall i :: 0 <= i < |frags| ==> |frags[i].fragment.value| <= if i == 0 then first else payload
    ensures AllFit(frags, mtu)
  {
    hide ValueSize;
    hide WireSize;
    hide HeaderSize;
    forall i | 0 <= i < |frags|
      ensures WireSize(frags[i]) <= mtu && FitsWithSequence(frags[i], mtu)
    {
      assert IsPiece(p, frags[i], i, |frags|);
      WireBound(frags[i]);
      PieceFits(p, frags[i], i, |frags|, mtu, 0);
      forall s: u64
        ensures ValueSize(frags[i].(sequence := Some(s))) + 10 <= mtu
      {
        PieceFits(p, frags[i], i, |frags|, mtu, s);
      }
    }
  }

  // ---- the arithmetic of the loop ----

  /** Octets covered by the first i fragments. */
  function Covered(i: nat, first: nat, payload: nat): nat {
    if i == 0 then 0 else first + (i - 1) * payload
  }

  function FragCount(size: nat, first: nat, payload: nat): nat
    requires first <= size && payload > 0
  {
    1 + (size - first) / payload + (if (size - first) % payload != 0 then 1 else 0)
  }

  lemma Distribute(q: int, p: nat)
    ensures (q + 1) * p == q * p + p
  {
  }

  lemma MulMonotone(a: int, b: int, p: nat)
    requires a <= b
    ensures a * p <= b * p
  {
  }

  /** How many steps of length p lie below d, when d is q steps and a remainder. */
  lemma StepsBelow(j: nat, q: nat, r: nat, p: nat)
    requires r < p
    ensures j * p < q * p + r <==> j < q + (if r != 0 then 1 else 0)
  {
    Distribute(q, p);
    Distribute(q - 1, p);
    if j <= q - 1 {
      MulMonotone(j, q - 1, p);
    } else if j >= q + 1 {
      MulMonotone(q + 1, j, p);
    }
  }

  lemma DivMod(d: nat, p: nat)
    requires p > 0
    ensures d == (d / p) * p + d % p && d % p < p
  {
  }

  /** The fragment count is the number of pieces needed: not one fewer, and the last one ends it. */
  lemma CountIsExact(size: nat, first: nat, payload: nat, i: nat)
    requires 0 < first <= size && payload > 0
    ensures Covered(i, first, payload) < size <==> i < FragCount(size, first, payload)
  {
    if i > 0 {
      DivMod(size - first, payload);
      StepsBelow(i - 1, (size - first) / payload, (size - first) % payload, payload);
    }
  }

  lemma JoinAppend(frags: seq<LpPacket>, f: LpPacket)
    requires forall i :: 0 <= i < |frags| ==> frags[i].fragment.Some?
    requires f.fragment.Some?
    ensures Join(frags + [f]) == Join(frags) + f.fragment.value
  {
    assert (frags + [f])[..|frags|] == frags;
  }

  // ---- the method ----

  /** The two ways in which fragmentation fails. */
  predicate Fails(p: LpPacket, mtu: nat, nMaxFragments: nat)
    requires p.fragment.Some?
  {
    && MAX_SINGLE_FRAG_OVERHEAD + WireSize(p) > mtu
    && (|| MAX_FRAG_OVERHEAD + HeaderSize(p) + 1 > mtu
        || PieceCount(p, mtu) > nMaxFragments)
  }

  /** How many fragments the packet needs. */
  function PieceCount(p: LpPacket, mtu: nat): nat
    requires p.fragment.Some? && MAX_FRAG_OVERHEAD + HeaderSize(p) + 1 <= mtu
  {
    FragCount(|p.fragment.value|, Min(|p.fragment.value|, mtu - HeaderSize(p) - MAX_FRAG_OVERHEAD),
              mtu - MAX_FRAG_OVERHEAD)
  }

  /** `fragmentPacket`. It fails exactly in the two cases above. Otherwise it returns the packet
      itself or its fragments, each of which fits the MTU even with a Sequence added. */
  method FragmentPacket(packet: LpPacket, mtu: nat, nMaxFragments: nat) returns (isOk: bool, frags: seq<LpPacket>)
    requires packet.fragment.Some? && packet.fragIndex.None? && packet.fragCount.None?
    requires |packet.fragment.value| < M64
    ensures isOk <==> !Fails(packet, mtu, nMaxFragments)
    ensures isOk ==> AllFit(frags, mtu)
    ensures isOk && MAX_SINGLE_FRAG_OVERHEAD + WireSize(packet) <= mtu ==> frags == [packet]
    ensures isOk && MAX_SINGLE_FRAG_OVERHEAD + WireSize(packet) > mtu ==>
              Fragmented(packet, frags) && |frags| == PieceCount(packet, mtu)
    ensures isOk && MAX_SINGLE_FRAG_OVERHEAD + WireSize(packet) > mtu ==>
              forall i :: 0 <= i < |frags| - 1 && frags[i].fragment.Some? ==>
                |frags[i].fragment.value| == mtu - 50 - (if i == 0 then HeaderSize(packet) else 0)
  {
    hide ValueSize;
    hide WireSize;
    hide HeaderSize;
    hide FragCount;
    hide Join;
    if MAX_SINGLE_FRAG_OVERHEAD + WireSize(packet) <= mtu {
      forall s: u64
        ensures ValueSize(packet.(sequence := Some(s))) + 10 <= mtu
      {
        FastPathFits(packet, mtu, s);
      }
      return true, [packet];
    }
    var bytes := packet.fragment.value;
    var netPktSize := |bytes|;
    var firstHeaderSize := HeaderSize(packet);
    if MAX_FRAG_OVERHEAD + firstHeaderSize + 1 > mtu {
      return false, [];
    }
    var firstPayloadSize := Min(netPktSize, mtu - firstHeaderSize - MAX_FRAG_OVERHEAD);
    var payloadSize := mtu - MAX_FRAG_OVERHEAD;
    var fragCount := FragCount(netPktSize, firstPayloadSize, payloadSize);
    if fragCount > nMaxFragments {
      return false, [];
    }
    SlowPathSplits(packet, mtu);
    frags := FillFragments(packet, firstPayloadSize, payloadSize, fragCount);
    AllPiecesFit(packet, frags, firstPayloadSize, payloadSize, mtu);
    isOk := true;
  }

  /** The loop of `fragmentPacket`: it fills exactly the computed number of fragments. */
  method FillFragments(packet: LpPacket, first: nat, payload: nat, fragCount: nat) returns (frags: seq<LpPacket>)
    requires packet.fragment.Some? && |packet.fragment.value| < M64
    requires 0 < first < |packet.fragment.value| && payload > 0
    requires fragCount == FragCount(|packet.fragment.value|, first, payload)
    ensures |frags| == fragCount && Fragmented(packet, frags)
    ensures forall i :: 0 <= i < |frags| ==> |frags[i].fragment.value| <= if i == 0 then first else payload
    ensures forall i :: 0 <= i < |frags| - 1 ==> |frags[i].fragment.value| == if i == 0 then first else payload
  {
    var bytes := packet.fragment.value;
    CountBound(|bytes|, first, payload);
    frags := [];
    var fragBegin, fragEnd := 0, first;
    while fragBegin < |bytes|
      invariant fragBegin == Min(|bytes|, Covered(|frags|, first, payload))
      invariant fragEnd == Min(|bytes|, Covered(|frags| + 1, first, payload))
      invariant |frags| <= fragCount < M64
      invariant forall i :: 0 <= i < |frags| ==> IsPiece(packet, frags[i], i, fragCount)
      invariant forall i :: 0 <= i < |frags| ==> |frags[i].fragment.value| <= if i == 0 then first else payload
      invariant forall i :: 0 <= i < |frags| && (i < |frags| - 1 || fragBegin < |bytes|) ==>
                  |frags[i].fragment.value| == if i == 0 then first else payload
      invariant Join(frags) == bytes[..fragBegin]
      decreases |bytes| - fragBegin
    {
      CountIsExact(|bytes|, first, payload, |frags|);
      var base := if |frags| == 0 then packet else EMPTY;
      var frag := base.(fragIndex := Some(|frags|), fragCount := Some(fragCount),
                        fragment := Some(bytes[fragBegin..fragEnd]));
      JoinAppend(frags, frag);
      assert bytes[..fragEnd] == bytes[..fragBegin] + bytes[fragBegin..fragEnd];
      CoveredNext(|frags| + 1, first, payload);
      frags := frags + [frag];
      fragBegin := fragEnd;
      fragEnd := Min(|bytes|, fragBegin + payload);
    }
    CountIsExact(|bytes|, first, payload, |frags|);
    assert bytes[..|bytes|] == bytes;
  }

  lemma CoveredNext(i: nat, first: nat, payload: nat)
    requires i > 0
    ensures Covered(i + 1, first, payload) == Covered(i, first, payload) + payload
  {
    assert i * payload == (i - 1) * payload + payload;
  }

  lemma {:induction false} CoveredAtLeast(i: nat, first: nat, payload: nat)
    requires first > 0 && payload > 0
    ensures Covered(i, first, payload) >= i
  {
    if i > 1 {
      CoveredAtLeast(i - 1, first, payload);
      CoveredNext(i - 1, first, payload);
    }
  }

  lemma CountBound(size: nat, first: nat, payload: nat)
    requires 0 < first < size && payload > 0
    ensures 2 <= FragCount(size, first, payload) <= size
  {
    hide FragCount;
    CoveredAtLeast(size, first, payload);
    CountIsExact(size, first, payload, 1);
    hide Covered;
    CountIsExact(size, first, payload, size);
  }
}
