/** The octets of an NDNLPv2 packet: `lp::Packet` encoding and decoding, and its size. */
module LpWire {
  import opened Basics
  import opened Tlv
  import opened LpPackets
  import opened SendPath

  const INTEREST: nat := 5
  const DATA: nat := 6

  // ---- sizes ----

  lemma VarOctets(n: nat)
    ensures |EncodeVar(n)| == VarSize(n)
  {
  }

  lemma ElementOctets(typ: nat, value: Bytes)
    ensures |Encode(typ, value)| == ElementSize(typ, |value|)
  {
    VarOctets(typ);
    VarOctets(|value|);
  }

  /** Octets of several elements. */
  function BlocksSize(bs: seq<Block>): nat {
    if bs == [] then 0 else ElementSize(bs[0].typ, |bs[0].value|) + BlocksSize(bs[1..])
  }

  lemma {:induction false} BlocksOctets(bs: seq<Block>)
    ensures |EncodeBlocks(bs)| == BlocksSize(bs)
  {
    if bs != [] {
      ElementOctets(bs[0].typ, bs[0].value);
      BlocksOctets(bs[1..]);
    }
  }

  lemma {:induction false} BlocksSizeAppend(a: seq<Block>, b: seq<Block>)
    ensures BlocksSize(a + b) == BlocksSize(a) + BlocksSize(b)
  {
    if a == [] {
      assert a + b == b;
    } else {
      BlocksSizeAppend(a[1..], b);
      assert (a + b)[1..] == a[1..] + b;
    }
  }

  // ---- the elements of a packet ----

  /** Header fields that a packet carries without looking into them. */
  predicate IsCarried(t: nat) {
    t in {98, 800, 812, 816, 820, 844, 848}
  }

  function FieldBlocks(hs: seq<Field>): (r: seq<Block>)
    ensures |r| == |hs| && forall i :: 0 <= i < |r| ==> r[i] == Block(hs[i].typ, hs[i].value)
  {
    seq(|hs|, i requires 0 <= i < |hs| => Block(hs[i].typ, hs[i].value))
  }

  /** The fields in front of CongestionMark. */
  function Front(hs: seq<Field>): (r: seq<Field>)
    ensures |r| <= |hs| && r == hs[..|r|]
    ensures forall i :: 0 <= i < |r| ==> hs[i].typ <= CONGESTION_MARK
    ensures |r| < |hs| ==> hs[|r|].typ > CONGESTION_MARK
  {
    if hs == [] || hs[0].typ > CONGESTION_MARK then [] else [hs[0]] + Front(hs[1..])
  }

  function SequenceBlocks(o: Option<u64>, typ: nat): seq<Block> {
    if o.None? then [] else [Block(typ, BigEndian(o.value, 8))]
  }

  function NniBlocks(o: Option<u64>, typ: nat): seq<Block> {
    if o.None? then [] else [Block(typ, EncodeNni(o.value))]
  }

  function AckBlocks(acks: seq<u64>): (r: seq<Block>)
    ensures |r| == |acks| && forall i :: 0 <= i < |r| ==> r[i] == Block(ACK, BigEndian(acks[i], 8))
  {
    seq(|acks|, i requires 0 <= i < |acks| => Block(ACK, BigEndian(acks[i], 8)))
  }

  function FragmentBlocks(o: Option<Bytes>): seq<Block> {
    if o.None? then [] else [Block(FRAGMENT, o.value)]
  }

  /** The elements before CongestionMark, and from there on. */
  function FirstHalf(p: LpPacket): seq<Block> {
    SequenceBlocks(p.sequence, SEQUENCE) + NniBlocks(p.fragIndex, FRAG_INDEX) + NniBlocks(p.fragCount, FRAG_COUNT)
    + FieldBlocks(Front(p.headers))
  }

  function SecondHalf(p: LpPacket): seq<Block> {
    NniBlocks(p.congestionMark, CONGESTION_MARK) + AckBlocks(p.acks) + SequenceBlocks(p.txSequence, TX_SEQUENCE)
    + FieldBlocks(p.headers[|Front(p.headers)|..]) + FragmentBlocks(p.fragment)
  }

  /** Headers in the order of their types, Fragment last. */
  function PacketElements(p: LpPacket): seq<Block> {
    FirstHalf(p) + SecondHalf(p)
  }

  /** `wireEncode`: the bare network-layer packet if there is nothing but a Fragment. */
  function EncodePacket(p: LpPacket): Bytes {
    if !HasHeader(p) && p.fragment.Some? then p.fragment.value
    else Encode(LP_PACKET, EncodeBlocks(PacketElements(p)))
  }

  // ---- the size function is the size ----

  lemma {:induction false} HeadersOctets(hs: seq<Field>)
    ensures BlocksSize(FieldBlocks(hs)) == HeadersSize(hs)
  {
    if hs != [] {
      HeadersOctets(hs[1..]);
      assert FieldBlocks(hs)[1..] == FieldBlocks(hs[1..]);
    }
  }

  lemma {:induction false} AcksOctets(acks: seq<u64>)
    ensures BlocksSize(AckBlocks(acks)) == |acks| * ElementSize(ACK, 8)
  {
    if acks != [] {
      AcksOctets(acks[1..]);
      assert AckBlocks(acks)[1..] == AckBlocks(acks[1..]);
    }
  }

  lemma OneOctets(typ: nat, value: Bytes)
    ensures BlocksSize([Block(typ, value)]) == ElementSize(typ, |value|)
  {
    assert [Block(typ, value)][1..] == [];
  }

  lemma OptionalOctets(o: Option<u64>, typ: nat)
    ensures BlocksSize(SequenceBlocks(o, typ)) == SequenceSize(o, typ)
    ensures BlocksSize(NniBlocks(o, typ)) == NniFieldSize(o, typ)
  {
    if o.Some? {
      OneOctets(typ, BigEndian(o.value, 8));
      OneOctets(typ, EncodeNni(o.value));
    }
  }

  lemma FirstHalfOctets(p: LpPacket)
    ensures BlocksSize(FirstHalf(p))
            == SequenceSize(p.sequence, SEQUENCE) + NniFieldSize(p.fragIndex, FRAG_INDEX)
               + NniFieldSize(p.fragCount, FRAG_COUNT) + HeadersSize(Front(p.headers))
  {
    hide BlocksSize;
    var a, b := SequenceBlocks(p.sequence, SEQUENCE), NniBlocks(p.fragIndex, FRAG_INDEX);
    var c, d := NniBlocks(p.fragCount, FRAG_COUNT), FieldBlocks(Front(p.headers));
    BlocksSizeAppend(a + b + c, d);
    BlocksSizeAppend(a + b, c);
    BlocksSizeAppend(a, b);
    OptionalOctets(p.sequence, SEQUENCE);
    OptionalOctets(p.fragIndex, FRAG_INDEX);
    OptionalOctets(p.fragCount, FRAG_COUNT);
    HeadersOctets(Front(p.headers));
  }

  lemma SecondHalfOctets(p: LpPacket)
    ensures BlocksSize(SecondHalf(p))
            == NniFieldSize(p.congestionMark, CONGESTION_MARK) + |p.acks| * ElementSize(ACK, 8)
               + SequenceSize(p.txSequence, TX_SEQUENCE) + HeadersSize(p.headers[|Front(p.headers)|..])
               + FragmentSize(p.fragment)
  {
    hide BlocksSize;
    hide ElementSize;
    var a, b := NniBlocks(p.congestionMark, CONGESTION_MARK), AckBlocks(p.acks);
    var c, d := SequenceBlocks(p.txSequence, TX_SEQUENCE), FieldBlocks(p.headers[|Front(p.headers)|..]);
    var e := FragmentBlocks(p.fragment);
    BlocksSizeAppend(a + b + c + d, e);
    BlocksSizeAppend(a + b + c, d);
    BlocksSizeAppend(a + b, c);
    BlocksSizeAppend(a, b);
    OptionalOctets(p.congestionMark, CONGESTION_MARK);
    AcksOctets(p.acks);
    OptionalOctets(p.txSequence, TX_SEQUENCE);
    HeadersOctets(p.headers[|Front(p.headers)|..]);
    NoOctets();
    if p.fragment.Some? {
      OneOctets(FRAGMENT, p.fragment.value);
    }
  }

  lemma NoOctets()
    ensures BlocksSize([]) == 0
  {
  }

  lemma {:induction false} HeadersSizeAppend(a: seq<Field>, b: seq<Field>)
    ensures HeadersSize(a + b) == HeadersSize(a) + HeadersSize(b)
  {
    if a == [] {
      assert a + b == b;
    } else {
      HeadersSizeAppend(a[1..], b);
      assert (a + b)[1..] == a[1..] + b;
    }
  }

  /** The size that all MTU results are about is the number of octets of the encoding. */
  lemma EncodedSize(p: LpPacket)
    ensures |EncodePacket(p)| == WireSize(p)
  {
    hide BlocksSize;
    hide EncodeBlocks;
    hide FirstHalf;
    hide SecondHalf;
    var front := Front(p.headers);
    assert p.headers == front + p.headers[|front|..];
    HeadersSizeAppend(front, p.headers[|front|..]);
    FirstHalfOctets(p);
    SecondHalfOctets(p);
    BlocksSizeAppend(FirstHalf(p), SecondHalf(p));
    BlocksOctets(PacketElements(p));
    ElementOctets(LP_PACKET, EncodeBlocks(PacketElements(p)));
  }

  // ---- decoding ----

  predicate IsRecognized(t: nat) {
    t in {FRAGMENT, SEQUENCE, FRAG_INDEX, FRAG_COUNT, CONGESTION_MARK, ACK, TX_SEQUENCE} || IsCarried(t)
  }

  /** Unknown fields of these types are ignored. */
  predicate CanIgnore(t: nat) {
    !IsRecognized(t) && 800 <= t <= 959 && t % 4 == 0
  }

  /** Sort order: header fields by type, then Fragment. */
  predicate Precedes(t: nat, u: nat) {
    if t == FRAGMENT then false else u == FRAGMENT || t < u
  }

  /** Element u may follow element t. */
  predicate MayFollow(t: nat, u: nat) {
    if t == u then t == ACK else Precedes(t, u)
  }

  predicate WellOrdered(bs: seq<Block>) {
    && (forall i :: 0 <= i < |bs| ==> IsRecognized(bs[i].typ) || CanIgnore(bs[i].typ))
    && (forall i :: 0 < i < |bs| ==> MayFollow(bs[i - 1].typ, bs[i].typ))
  }

  /** The loop of `wireDecode`. */
  method CheckOrder(bs: seq<Block>) returns (ok: bool)
    ensures ok <==> WellOrdered(bs)
  {
    var isFirst, prev, i := true, 0, 0;
    while i < |bs|
      invariant 0 <= i <= |bs| && WellOrdered(bs[..i])
      invariant isFirst <==> i == 0
      invariant i > 0 ==> prev == bs[i - 1].typ
    {
      var t := bs[i].typ;
      if !IsRecognized(t) && !CanIgnore(t) {
        return false;
      }
      if !isFirst {
        if t == prev && t != ACK {
          return false;
        } else if t != prev && !Precedes(prev, t) {
          return false;
        }
      }
      isFirst, prev, i := false, t, i + 1;
    }
    assert bs[..i] == bs;
    return true;
  }

  /** The values of all elements of a type. */
  function Select(bs: seq<Block>, t: nat): seq<Bytes> {
    if bs == [] then [] else Pick(bs[0], t) + Select(bs[1..], t)
  }

  function Pick(b: Block, t: nat): seq<Bytes> {
    if b.typ == t then [b.value] else []
  }

  function Carried(bs: seq<Block>): seq<Field> {
    if bs == [] then []
    else (if IsCarried(bs[0].typ) then [Field(bs[0].typ, bs[0].value)] else []) + Carried(bs[1..])
  }

  /** A Sequence value; None where its field throws. */
  function ReadSequence(v: Bytes): Option<u64> {
    if |v| != 8 then None else SequenceRange(v); Some(FromBigEndian(v))
  }

  lemma SequenceRange(v: Bytes)
    requires |v| == 8
    ensures FromBigEndian(v) < M64
  {
    Powers();
    BigEndianBound(v);
  }

  function ReadNni(v: Bytes): Option<u64> {
    NniRange(v);
    DecodeNni(v)
  }

  /** The first value of an optional field. */
  function Optional(vs: seq<Bytes>, read: Bytes -> Option<u64>): Option<Option<u64>> {
    if vs == [] then Some(None)
    else match read(vs[0])
         case None => None
         case Some(n) => Some(Some(n))
  }

  function ReadAll(vs: seq<Bytes>): Option<seq<u64>> {
    if vs == [] then Some([])
    else match (ReadSequence(vs[0]), ReadAll(vs[1..]))
         case (Some(n), Some(rest)) => Some([n] + rest)
         case _ => None
  }

  /** The fields of a packet with the given elements. */
  function Fields(bs: seq<Block>): Option<LpPacket> {
    var fragment := Select(bs, FRAGMENT);
    if fragment != [] && fragment[0] == [] then None
    else
      match (Optional(Select(bs, SEQUENCE), ReadSequence), Optional(Select(bs, FRAG_INDEX), ReadNni),
             Optional(Select(bs, FRAG_COUNT), ReadNni), Optional(Select(bs, CONGESTION_MARK), ReadNni),
             ReadAll(Select(bs, ACK)), Optional(Select(bs, TX_SEQUENCE), ReadSequence))
      case (Some(sequence), Some(fragIndex), Some(fragCount), Some(mark), Some(acks), Some(txSequence)) =>
        Some(LpPacket(sequence, fragIndex, fragCount, Carried(bs), mark, acks, txSequence,
                      if fragment == [] then None else Some(fragment[0])))
      case _ => None
  }

  /** `wireDecode`, with all fields read; None for tlv::Error. */
  function DecodePacket(bs: Bytes): Option<LpPacket> {
    if !IsElement(bs) then None
    else
      var e := ReadElement(bs).value;
      if e.typ == INTEREST || e.typ == DATA then Some(EMPTY.(fragment := Some(bs)))
      else if e.typ != LP_PACKET then None
      else match ParseBlocks(bs[e.head..])
           case None => None
           case Some(elements) => if WellOrdered(elements) then Fields(elements) else None
  }

  // ---- decoding undoes encoding ----

  predicate Ascending(hs: seq<Field>) {
    forall i, j :: 0 <= i < j < |hs| ==> hs[i].typ < hs[j].typ
  }

  /** What `add` and `set` guarantee: carried fields of distinct types in order, no empty Fragment; and
      a packet that encodes to its bare Fragment holds an Interest or Data. */
  predicate IsPacket(p: LpPacket) {
    && AllCarried(p.headers) && Ascending(p.headers)
    && p.fragment != Some([])
    && (!HasHeader(p) && p.fragment.Some? ==>
          IsElement(p.fragment.value) && ReadElement(p.fragment.value).value.typ in {INTEREST, DATA})
    && |EncodeBlocks(PacketElements(p))| < M64
  }

  function Rank(t: nat): nat {
    if t == FRAGMENT then 1000 else t
  }

  /** Elements in order, with ranks from lo up to hi. */
  predicate InRange(bs: seq<Block>, lo: nat, hi: nat) {
    WellOrdered(bs) && forall i :: 0 <= i < |bs| ==> lo <= Rank(bs[i].typ) < hi
  }

  lemma InRangeAppend(a: seq<Block>, b: seq<Block>, lo: nat, mid: nat, hi: nat)
    requires InRange(a, lo, mid) && InRange(b, mid, hi) && lo <= mid <= hi
    ensures InRange(a + b, lo, hi)
  {
    var c := a + b;
    forall i | 0 < i < |c|
      ensures MayFollow(c[i - 1].typ, c[i].typ)
    {
      if i < |a| {
        assert c[i - 1] == a[i - 1] && c[i] == a[i];
      } else if i > |a| {
        assert c[i - 1] == b[i - |a| - 1] && c[i] == b[i - |a|];
      } else {
        assert Rank(a[i - 1].typ) < mid <= Rank(b[0].typ);
        assert IsRecognized(a[i - 1].typ) || CanIgnore(a[i - 1].typ);
        assert IsRecognized(b[0].typ) || CanIgnore(b[0].typ);
      }
    }
  }

  lemma FieldsInRange(hs: seq<Field>, lo: nat, hi: nat)
    requires Ascending(hs)
    requires forall i :: 0 <= i < |hs| ==> IsCarried(hs[i].typ) && lo <= hs[i].typ < hi
    ensures InRange(FieldBlocks(hs), lo, hi)
  {
  }

  predicate AllCarried(hs: seq<Field>) {
    forall i :: 0 <= i < |hs| ==> IsCarried(hs[i].typ)
  }

  lemma HeadersApart(hs: seq<Field>)
    requires AllCarried(hs) && Ascending(hs)
    ensures InRange(FieldBlocks(Front(hs)), 84, 832)
    ensures InRange(FieldBlocks(hs[|Front(hs)|..]), 841, 1000)
  {
    hide InRange;
    hide FieldBlocks;
    var n := |Front(hs)|;
    forall i | 0 <= i < n
      ensures IsCarried(hs[i].typ) && 84 <= hs[i].typ < 832
    {
    }
    forall i | n <= i < |hs|
      ensures IsCarried(hs[i].typ) && 841 <= hs[i].typ < 1000
    {
      assert i > n ==> hs[n].typ < hs[i].typ;
    }
    FieldsInRange(hs[..n], 84, 832);
    FieldsInRange(hs[n..], 841, 1000);
  }

  lemma RestInRange(acks: seq<u64>, fragment: Option<Bytes>)
    ensures InRange(AckBlocks(acks), 833, 837)
    ensures InRange(FragmentBlocks(fragment), 1000, 1001)
  {
  }

  lemma OneInRange(o: Option<u64>, typ: nat, hi: nat)
    requires IsRecognized(typ) && typ != FRAGMENT && typ < hi
    ensures InRange(SequenceBlocks(o, typ), typ, hi) && InRange(NniBlocks(o, typ), typ, hi)
  {
  }

  lemma ElementsOrdered(p: LpPacket)
    requires IsPacket(p)
    ensures WellOrdered(PacketElements(p)) && ValidTypes(PacketElements(p))
  {
    hide InRange;
    hide PacketElements;
    HeadersApart(p.headers);
    OneInRange(p.sequence, SEQUENCE, 82);
    OneInRange(p.fragIndex, FRAG_INDEX, 83);
    OneInRange(p.fragCount, FRAG_COUNT, 84);
    OneInRange(p.congestionMark, CONGESTION_MARK, 833);
    OneInRange(p.txSequence, TX_SEQUENCE, 841);
    RestInRange(p.acks, p.fragment);
    Ordered(p);
  }

  lemma Ordered(p: LpPacket)
    requires InRange(SequenceBlocks(p.sequence, SEQUENCE), 81, 82)
    requires InRange(NniBlocks(p.fragIndex, FRAG_INDEX), 82, 83)
    requires InRange(NniBlocks(p.fragCount, FRAG_COUNT), 83, 84) && InRange(FieldBlocks(Front(p.headers)), 84, 832)
    requires InRange(NniBlocks(p.congestionMark, CONGESTION_MARK), 832, 833) && InRange(AckBlocks(p.acks), 833, 837)
    requires InRange(SequenceBlocks(p.txSequence, TX_SEQUENCE), 840, 841)
    requires InRange(FieldBlocks(p.headers[|Front(p.headers)|..]), 841, 1000)
    requires InRange(FragmentBlocks(p.fragment), 1000, 1001)
    ensures WellOrdered(PacketElements(p)) && ValidTypes(PacketElements(p))
  {
    hide InRange;
    var a, b := SequenceBlocks(p.sequence, SEQUENCE), NniBlocks(p.fragIndex, FRAG_INDEX);
    var c, d := NniBlocks(p.fragCount, FRAG_COUNT), FieldBlocks(Front(p.headers));
    var e, f := NniBlocks(p.congestionMark, CONGESTION_MARK), AckBlocks(p.acks);
    var g, h := SequenceBlocks(p.txSequence, TX_SEQUENCE), FieldBlocks(p.headers[|Front(p.headers)|..]);
    InRangeAppend(a, b, 81, 82, 83);
    InRangeAppend(a + b, c, 81, 83, 84);
    InRangeAppend(a + b + c, d, 81, 84, 832);
    InRangeAppend(e, f, 832, 833, 837);
    Widen(e + f, 832, 837, 840);
    InRangeAppend(e + f, g, 832, 840, 841);
    InRangeAppend(e + f + g, h, 832, 841, 1000);
    InRangeAppend(e + f + g + h, FragmentBlocks(p.fragment), 832, 1000, 1001);
    InRangeAppend(FirstHalf(p), SecondHalf(p), 81, 832, 1001);
    RangeValid(PacketElements(p));
  }

  lemma Widen(bs: seq<Block>, lo: nat, hi: nat, hi': nat)
    requires InRange(bs, lo, hi) && hi <= hi'
    ensures InRange(bs, lo, hi')
  {
  }

  lemma RangeValid(bs: seq<Block>)
    requires InRange(bs, 81, 1001)
    ensures ValidTypes(bs) && WellOrdered(bs)
  {
  }

  lemma SelectFront(b: Block, rest: seq<Block>, t: nat)
    ensures Select([b] + rest, t) == Pick(b, t) + Select(rest, t)
  {
    assert ([b] + rest)[1..] == rest;
  }

  lemma SelectNothing(t: nat)
    ensures Select([], t) == []
  {
  }

  lemma Associate<T>(x: seq<T>, y: seq<T>, z: seq<T>)
    ensures x + (y + z) == (x + y) + z
  {
  }

  lemma {:induction false} SelectAppend(a: seq<Block>, b: seq<Block>, t: nat)
    ensures Select(a + b, t) == Select(a, t) + Select(b, t)
  {
    hide Select;
    hide Pick;
    if a == [] {
      SelectNothing(t);
      assert a + b == b;
    } else {
      SelectAppend(a[1..], b, t);
      SelectFront(a[0], a[1..], t);
      SelectFront(a[0], a[1..] + b, t);
      Associate([a[0]], a[1..], b);
      Associate(Pick(a[0], t), Select(a[1..], t), Select(b, t));
      assert a == [a[0]] + a[1..];
    }
  }

  lemma {:induction false} SelectNone(bs: seq<Block>, t: nat)
    requires forall i :: 0 <= i < |bs| ==> bs[i].typ != t
    ensures Select(bs, t) == []
  {
    if bs != [] {
      SelectNone(bs[1..], t);
    }
  }

  lemma CarriedFront(b: Block, rest: seq<Block>)
    ensures Carried([b] + rest) == Carried([b]) + Carried(rest)
  {
    assert ([b] + rest)[1..] == rest && [b][1..] == [];
  }

  lemma {:induction false} CarriedAppend(a: seq<Block>, b: seq<Block>)
    ensures Carried(a + b) == Carried(a) + Carried(b)
  {
    if a == [] {
      assert a + b == b;
    } else {
      hide Carried;
      CarriedAppend(a[1..], b);
      CarriedFront(a[0], a[1..]);
      CarriedFront(a[0], a[1..] + b);
      Associate([a[0]], a[1..], b);
      Associate(Carried([a[0]]), Carried(a[1..]), Carried(b));
      assert a == [a[0]] + a[1..];
    }
  }

  lemma {:induction false} CarriedNone(bs: seq<Block>)
    requires forall i :: 0 <= i < |bs| ==> !IsCarried(bs[i].typ)
    ensures Carried(bs) == []
  {
    if bs != [] {
      CarriedNone(bs[1..]);
    }
  }

  lemma {:induction false} CarriedAll(hs: seq<Field>)
    requires AllCarried(hs)
    ensures Carried(FieldBlocks(hs)) == hs
  {
    if hs != [] {
      CarriedAll(hs[1..]);
      assert FieldBlocks(hs)[1..] == FieldBlocks(hs[1..]);
      assert hs == [hs[0]] + hs[1..];
    }
  }

  lemma {:induction false} AcksRead(acks: seq<u64>)
    ensures ReadAll(Select(AckBlocks(acks), ACK)) == Some(acks)
  {
    if acks != [] {
      AcksRead(acks[1..]);
      var bs := AckBlocks(acks);
      assert bs[1..] == AckBlocks(acks[1..]);
      SequenceRead(acks[0]);
      var vs := Select(bs, ACK);
      assert vs[0] == BigEndian(acks[0], 8) && vs[1..] == Select(bs[1..], ACK);
      assert acks == [acks[0]] + acks[1..];
    }
  }

  lemma SequenceRead(n: u64)
    ensures ReadSequence(BigEndian(n, 8)) == Some(n)
  {
    Powers();
    BigEndianRoundTrip(n, 8);
  }

  lemma OptionalRead(o: Option<u64>, t: nat)
    ensures Optional(Select(SequenceBlocks(o, t), t), ReadSequence) == Some(o)
    ensures Optional(Select(NniBlocks(o, t), t), ReadNni) == Some(o)
  {
    if o.Some? {
      SequenceRead(o.value);
      NniRoundTrip(o.value);
      assert [Block(t, BigEndian(o.value, 8))][1..] == [] && [Block(t, EncodeNni(o.value))][1..] == [];
    }
  }

  lemma FieldsNotSelected(hs: seq<Field>, t: nat)
    requires AllCarried(hs) && !IsCarried(t)
    ensures Select(FieldBlocks(hs), t) == []
  {
    SelectNone(FieldBlocks(hs), t);
  }

  lemma SelectFirst(p: LpPacket, t: nat)
    requires AllCarried(p.headers) && !IsCarried(t)
    ensures Select(FirstHalf(p), t)
            == Select(SequenceBlocks(p.sequence, SEQUENCE), t) + Select(NniBlocks(p.fragIndex, FRAG_INDEX), t)
               + Select(NniBlocks(p.fragCount, FRAG_COUNT), t)
  {
    hide Select;
    hide IsCarried;
    hide SequenceBlocks;
    hide NniBlocks;
    var a, b := SequenceBlocks(p.sequence, SEQUENCE), NniBlocks(p.fragIndex, FRAG_INDEX);
    var c := NniBlocks(p.fragCount, FRAG_COUNT);
    SelectAppend(a, b, t);
    SelectAppend(a + b, c, t);
    SelectAppend(a + b + c, FieldBlocks(Front(p.headers)), t);
    FieldsNotSelected(Front(p.headers), t);
  }

  lemma SelectSecond(p: LpPacket, t: nat)
    requires AllCarried(p.headers) && !IsCarried(t)
    ensures Select(SecondHalf(p), t)
            == Select(NniBlocks(p.congestionMark, CONGESTION_MARK), t) + Select(AckBlocks(p.acks), t)
               + Select(SequenceBlocks(p.txSequence, TX_SEQUENCE), t) + Select(FragmentBlocks(p.fragment), t)
  {
    hide Select;
    hide IsCarried;
    hide SequenceBlocks;
    hide NniBlocks;
    hide AckBlocks;
    hide FragmentBlocks;
    var e, f := NniBlocks(p.congestionMark, CONGESTION_MARK), AckBlocks(p.acks);
    var g, back := SequenceBlocks(p.txSequence, TX_SEQUENCE), p.headers[|Front(p.headers)|..];
    SelectAppend(e, f, t);
    SelectAppend(e + f, g, t);
    SelectAppend(e + f + g, FieldBlocks(back), t);
    SelectAppend(e + f + g + FieldBlocks(back), FragmentBlocks(p.fragment), t);
    FieldsNotSelected(back, t);
  }

  lemma OthersNone(o: Option<u64>, u: nat, t: nat)
    requires t != u
    ensures Select(SequenceBlocks(o, u), t) == [] && Select(NniBlocks(o, u), t) == []
  {
    SelectNone(SequenceBlocks(o, u), t);
    SelectNone(NniBlocks(o, u), t);
  }

  lemma NotInOthers(p: LpPacket, t: nat)
    ensures t != SEQUENCE ==> Select(SequenceBlocks(p.sequence, SEQUENCE), t) == []
    ensures t != FRAG_INDEX ==> Select(NniBlocks(p.fragIndex, FRAG_INDEX), t) == []
    ensures t != FRAG_COUNT ==> Select(NniBlocks(p.fragCount, FRAG_COUNT), t) == []
    ensures t != CONGESTION_MARK ==> Select(NniBlocks(p.congestionMark, CONGESTION_MARK), t) == []
    ensures t != ACK ==> Select(AckBlocks(p.acks), t) == []
    ensures t != TX_SEQUENCE ==> Select(SequenceBlocks(p.txSequence, TX_SEQUENCE), t) == []
    ensures t != FRAGMENT ==> Select(FragmentBlocks(p.fragment), t) == []
  {
    hide Select;
    if t != SEQUENCE { OthersNone(p.sequence, SEQUENCE, t); }
    if t != FRAG_INDEX { OthersNone(p.fragIndex, FRAG_INDEX, t); }
    if t != FRAG_COUNT { OthersNone(p.fragCount, FRAG_COUNT, t); }
    if t != CONGESTION_MARK { OthersNone(p.congestionMark, CONGESTION_MARK, t); }
    if t != ACK { SelectNone(AckBlocks(p.acks), t); }
    if t != TX_SEQUENCE { OthersNone(p.txSequence, TX_SEQUENCE, t); }
    if t != FRAGMENT { SelectNone(FragmentBlocks(p.fragment), t); }
  }

  lemma SelectEach(p: LpPacket)
    requires AllCarried(p.headers)
    ensures var bs := PacketElements(p);
            && Select(bs, SEQUENCE) == Select(SequenceBlocks(p.sequence, SEQUENCE), SEQUENCE)
            && Select(bs, FRAG_INDEX) == Select(NniBlocks(p.fragIndex, FRAG_INDEX), FRAG_INDEX)
            && Select(bs, FRAG_COUNT) == Select(NniBlocks(p.fragCount, FRAG_COUNT), FRAG_COUNT)
            && Select(bs, CONGESTION_MARK) == Select(NniBlocks(p.congestionMark, CONGESTION_MARK), CONGESTION_MARK)
            && Select(bs, ACK) == Select(AckBlocks(p.acks), ACK)
            && Select(bs, TX_SEQUENCE) == Select(SequenceBlocks(p.txSequence, TX_SEQUENCE), TX_SEQUENCE)
            && Select(bs, FRAGMENT) == Select(FragmentBlocks(p.fragment), FRAGMENT)
  {
    hide Select;
    hide PacketElements;
    SelectOne(p, SEQUENCE);
    SelectOne(p, FRAG_INDEX);
    SelectOne(p, FRAG_COUNT);
    SelectOne(p, CONGESTION_MARK);
    SelectOne(p, ACK);
    SelectOne(p, TX_SEQUENCE);
    SelectOne(p, FRAGMENT);
  }

  lemma SelectOne(p: LpPacket, t: nat)
    requires AllCarried(p.headers)
    requires t in {SEQUENCE, FRAG_INDEX, FRAG_COUNT, CONGESTION_MARK, ACK, TX_SEQUENCE, FRAGMENT}
    ensures var bs := PacketElements(p);
            && (t == SEQUENCE ==> Select(bs, t) == Select(SequenceBlocks(p.sequence, t), t))
            && (t == FRAG_INDEX ==> Select(bs, t) == Select(NniBlocks(p.fragIndex, t), t))
            && (t == FRAG_COUNT ==> Select(bs, t) == Select(NniBlocks(p.fragCount, t), t))
            && (t == CONGESTION_MARK ==> Select(bs, t) == Select(NniBlocks(p.congestionMark, t), t))
            && (t == ACK ==> Select(bs, t) == Select(AckBlocks(p.acks), t))
            && (t == TX_SEQUENCE ==> Select(bs, t) == Select(SequenceBlocks(p.txSequence, t), t))
            && (t == FRAGMENT ==> Select(bs, t) == Select(FragmentBlocks(p.fragment), t))
  {
    hide Select;
    hide FirstHalf;
    hide SecondHalf;
    hide SequenceBlocks;
    hide NniBlocks;
    hide AckBlocks;
    hide FragmentBlocks;
    SelectFirst(p, t);
    SelectSecond(p, t);
    SelectAppend(FirstHalf(p), SecondHalf(p), t);
    NotInOthers(p, t);
  }

  lemma NoneCarried(o: Option<u64>, typ: nat)
    requires !IsCarried(typ)
    ensures Carried(SequenceBlocks(o, typ)) == [] && Carried(NniBlocks(o, typ)) == []
  {
    CarriedNone(SequenceBlocks(o, typ));
    CarriedNone(NniBlocks(o, typ));
  }

  lemma RestNotCarried(acks: seq<u64>, fragment: Option<Bytes>)
    ensures Carried(AckBlocks(acks)) == [] && Carried(FragmentBlocks(fragment)) == []
  {
    CarriedNone(AckBlocks(acks));
    CarriedNone(FragmentBlocks(fragment));
  }

  lemma CarriedFirst(p: LpPacket)
    requires AllCarried(p.headers)
    ensures Carried(FirstHalf(p)) == Front(p.headers)
  {
    hide Carried;
    var a, b := SequenceBlocks(p.sequence, SEQUENCE), NniBlocks(p.fragIndex, FRAG_INDEX);
    var c, d := NniBlocks(p.fragCount, FRAG_COUNT), FieldBlocks(Front(p.headers));
    NoneCarried(p.sequence, SEQUENCE);
    NoneCarried(p.fragIndex, FRAG_INDEX);
    NoneCarried(p.fragCount, FRAG_COUNT);
    hide IsCarried;
    CarriedAll(Front(p.headers));
    CarriedAppend(a, b);
    CarriedAppend(a + b, c);
    CarriedAppend(a + b + c, d);
  }

  lemma CarriedSecond(p: LpPacket)
    requires AllCarried(p.headers)
    ensures Carried(SecondHalf(p)) == p.headers[|Front(p.headers)|..]
  {
    hide Carried;
    var e, f := NniBlocks(p.congestionMark, CONGESTION_MARK), AckBlocks(p.acks);
    var g, h := SequenceBlocks(p.txSequence, TX_SEQUENCE), FieldBlocks(p.headers[|Front(p.headers)|..]);
    NoneCarried(p.congestionMark, CONGESTION_MARK);
    NoneCarried(p.txSequence, TX_SEQUENCE);
    RestNotCarried(p.acks, p.fragment);
    hide IsCarried;
    CarriedAll(p.headers[|Front(p.headers)|..]);
    CarriedAppend(e, f);
    CarriedAppend(e + f, g);
    CarriedAppend(e + f + g, h);
    CarriedAppend(e + f + g + h, FragmentBlocks(p.fragment));
  }

  lemma CarriedParts(p: LpPacket)
    requires AllCarried(p.headers)
    ensures Carried(PacketElements(p)) == p.headers
  {
    hide Carried;
    hide FirstHalf;
    hide SecondHalf;
    hide AllCarried;
    CarriedFirst(p);
    CarriedSecond(p);
    CarriedAppend(FirstHalf(p), SecondHalf(p));
  }

  lemma FieldsRead(p: LpPacket)
    requires AllCarried(p.headers) && p.fragment != Some([])
    ensures Fields(PacketElements(p)) == Some(p)
  {
    hide Select;
    hide PacketElements;
    hide Carried;
    hide ReadAll;
    hide Optional;
    SelectEach(p);
    CarriedParts(p);
    OptionalRead(p.sequence, SEQUENCE);
    OptionalRead(p.fragIndex, FRAG_INDEX);
    OptionalRead(p.fragCount, FRAG_COUNT);
    OptionalRead(p.congestionMark, CONGESTION_MARK);
    AcksRead(p.acks);
    OptionalRead(p.txSequence, TX_SEQUENCE);
    FragmentRead(p.fragment);
  }

  lemma FragmentRead(o: Option<Bytes>)
    ensures Select(FragmentBlocks(o), FRAGMENT) == if o.None? then [] else [o.value]
  {
    if o.Some? {
      assert [Block(FRAGMENT, o.value)][1..] == [];
    }
  }

  /** Decoding a packet restores every field. */
  lemma PacketRoundTrip(p: LpPacket)
    requires IsPacket(p)
    ensures DecodePacket(EncodePacket(p)) == Some(p)
  {
    hide Fields;
    hide WellOrdered;
    hide ParseBlocks;
    hide EncodeBlocks;
    hide PacketElements;
    hide ReadElement;
    hide EncodeVar;
    if HasHeader(p) || p.fragment.None? {
      var value := EncodeBlocks(PacketElements(p));
      ElementsOrdered(p);
      ParseEncoded(PacketElements(p));
      FieldsRead(p);
      ReadEncoded(LP_PACKET, value, []);
      var wire := EncodePacket(p);
      assert wire + [] == wire;
      var e := ReadElement(wire).value;
      assert wire[e.head..e.head + |value|] == wire[e.head..];
    }
  }

  /** Whatever reaches a transport of limited MTU has at most that many octets. */
  lemma {:induction false} OctetsOnWire(mtu: nat, es: seq<Emission>, i: nat)
    requires i < |OnWire(mtu, es)|
    ensures |EncodePacket(OnWire(mtu, es)[i])| <= mtu
    decreases |es|
  {
    hide WireSize;
    hide EncodePacket;
    EncodedSize(OnWire(mtu, es)[i]);
    if i < |OnWire(mtu, es[..|es| - 1])| {
      OctetsOnWire(mtu, es[..|es| - 1], i);
    }
  }
}
