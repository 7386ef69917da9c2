/** Which octets `lp::Packet` accepts, stated by type numbers and lengths. */
module WireFacts {
  import opened Basics
  import opened Tlv
  import opened LpPackets
  import opened LpWire

  /** Accepted: Fragment, Sequence, FragIndex, FragCount, PitToken, and multiples of 4 from 800 to 956. Of
      the latter these 31 are not known and ignored. */
  lemma AcceptedTypes(t: nat)
    ensures IsRecognized(t) || CanIgnore(t) <==> t in {80, 81, 82, 83, 98} || (800 <= t <= 956 && t % 4 == 0)
    ensures CanIgnore(t) <==>
            t in {804, 808, 824, 828, 852, 856, 860, 864, 868, 872, 876, 880, 884, 888, 892, 896, 900, 904, 908, 912,
                  916, 920, 924, 928, 932, 936, 940, 944, 948, 952, 956}
  {
  }

  predicate IsAccepted(t: nat) {
    t in {80, 81, 82, 83, 98} || (800 <= t <= 956 && t % 4 == 0)
  }

  /** Types strictly increase, except that Ack may repeat and Fragment comes last. */
  predicate MayPrecede(t: nat, u: nat) {
    (t == 836 && u == 836) || (t != 80 && (u == 80 || t < u))
  }

  predicate InOrder(bs: seq<Block>) {
    forall i, j :: 0 <= i < j < |bs| ==> MayPrecede(bs[i].typ, bs[j].typ)
  }

  predicate AllAccepted(bs: seq<Block>) {
    forall i :: 0 <= i < |bs| ==> IsAccepted(bs[i].typ)
  }

  lemma {:induction false} AdjacentIsAll(bs: seq<Block>, i: nat, j: nat)
    requires i < j < |bs| && forall k :: 0 < k < |bs| ==> MayFollow(bs[k - 1].typ, bs[k].typ)
    ensures MayPrecede(bs[i].typ, bs[j].typ)
    decreases j
  {
    assert MayFollow(bs[j - 1].typ, bs[j].typ);
    if i < j - 1 {
      AdjacentIsAll(bs, i, j - 1);
    }
  }

  /** The test of adjacent elements is a test of all pairs. */
  lemma OrderExactly(bs: seq<Block>)
    ensures WellOrdered(bs) <==> AllAccepted(bs) && InOrder(bs)
  {
    forall i | 0 <= i < |bs|
      ensures IsAccepted(bs[i].typ) <==> IsRecognized(bs[i].typ) || CanIgnore(bs[i].typ)
    {
      AcceptedTypes(bs[i].typ);
    }
    hide IsRecognized;
    hide CanIgnore;
    hide IsAccepted;
    if WellOrdered(bs) {
      forall i, j | 0 <= i < j < |bs|
        ensures MayPrecede(bs[i].typ, bs[j].typ)
      {
        AdjacentIsAll(bs, i, j);
      }
    }
    if InOrder(bs) {
      forall k | 0 < k < |bs|
        ensures MayFollow(bs[k - 1].typ, bs[k].typ)
      {
        assert MayPrecede(bs[k - 1].typ, bs[k].typ);
      }
    }
  }

  /** Lengths: 8 octets for Sequence, Ack and TxSequence, a NonNegativeInteger for FragIndex, FragCount and
      CongestionMark, and a Fragment that is not empty. */
  predicate IsReadable(b: Block) {
    && (b.typ in {81, 836, 840} ==> |b.value| == 8)
    && (b.typ in {82, 83, 832} ==> |b.value| in {1, 2, 4, 8})
    && (b.typ == 80 ==> b.value != [])
  }

  predicate AllReadable(bs: seq<Block>) {
    forall i :: 0 <= i < |bs| ==> IsReadable(bs[i])
  }

  predicate HasLengths(bs: seq<Block>, t: nat, lengths: set<nat>) {
    forall i :: 0 <= i < |bs| && bs[i].typ == t ==> |bs[i].value| in lengths
  }

  predicate FragmentEmpty(bs: seq<Block>) {
    exists i :: 0 <= i < |bs| && bs[i].typ == 80 && bs[i].value == []
  }

  lemma ReadableParts(bs: seq<Block>)
    ensures AllReadable(bs) <==>
            && HasLengths(bs, 81, {8}) && HasLengths(bs, 82, {1, 2, 4, 8}) && HasLengths(bs, 83, {1, 2, 4, 8})
            && HasLengths(bs, 832, {1, 2, 4, 8}) && HasLengths(bs, 836, {8}) && HasLengths(bs, 840, {8})
            && !FragmentEmpty(bs)
  {
  }

  /** The element of a type that does not repeat is the one selected. */
  lemma {:induction false} SelectIs(bs: seq<Block>, t: nat, i: nat)
    requires InOrder(bs) && i < |bs| && bs[i].typ == t && t != 836
    ensures Select(bs, t) == [bs[i].value]
  {
    assert forall k :: 1 <= k < |bs| ==> bs[k] == bs[1..][k - 1];
    if i == 0 {
      forall k | 0 <= k < |bs[1..]|
        ensures bs[1..][k].typ != t
      {
        assert MayPrecede(bs[0].typ, bs[k + 1].typ);
      }
      SelectNone(bs[1..], t);
    } else {
      assert MayPrecede(bs[0].typ, bs[i].typ);
      SelectIs(bs[1..], t, i - 1);
    }
  }

  /** o is what an optional field of type t holds in bs. */
  predicate Holds(bs: seq<Block>, t: nat, o: Option<u64>) {
    && (o.None? <==> forall i :: 0 <= i < |bs| ==> bs[i].typ != t)
    && (forall i :: 0 <= i < |bs| && bs[i].typ == t ==> o == Some(FromBigEndian(bs[i].value)))
  }

  predicate HoldsFragment(bs: seq<Block>, o: Option<Bytes>) {
    && (o.None? <==> forall i :: 0 <= i < |bs| ==> bs[i].typ != 80)
    && (forall i :: 0 <= i < |bs| && bs[i].typ == 80 ==> o == Some(bs[i].value))
  }

  /** One optional field: readable exactly if its element has one of the lengths. */
  lemma OptionalExactly(bs: seq<Block>, t: nat, read: Bytes -> Option<u64>, lengths: set<nat>)
    requires InOrder(bs) && t != 836
    requires forall v :: read(v).Some? <==> |v| in lengths
    requires forall v :: read(v).Some? ==> read(v).value == FromBigEndian(v)
    ensures var o := Optional(Select(bs, t), read);
            && (o.Some? <==> HasLengths(bs, t, lengths))
            && (o.Some? ==> Holds(bs, t, o.value))
  {
    hide Select;
    if i :| 0 <= i < |bs| && bs[i].typ == t {
      SelectIs(bs, t, i);
      forall j | 0 <= j < |bs| && bs[j].typ == t
        ensures bs[j].value == bs[i].value
      {
        SelectIs(bs, t, j);
      }
    } else {
      SelectNone(bs, t);
    }
  }

  lemma SequenceReads()
    ensures forall v :: ReadSequence(v).Some? <==> |v| in {8}
    ensures forall v :: ReadSequence(v).Some? ==> ReadSequence(v).value == FromBigEndian(v)
  {
  }

  lemma NniReads()
    ensures forall v :: ReadNni(v).Some? <==> |v| in {1, 2, 4, 8}
    ensures forall v :: ReadNni(v).Some? ==> ReadNni(v).value == FromBigEndian(v)
  {
  }

  /** The Acks are the values of the Ack elements, in order. */
  ghost predicate HoldsAcks(bs: seq<Block>, acks: seq<u64>) {
    if bs == [] then acks == []
    else if bs[0].typ == 836 then
      acks != [] && acks[0] == FromBigEndian(bs[0].value) && HoldsAcks(bs[1..], acks[1..])
    else HoldsAcks(bs[1..], acks)
  }

  lemma {:induction false} AcksExactly(bs: seq<Block>)
    ensures var o := ReadAll(Select(bs, ACK));
            && (o.Some? <==> HasLengths(bs, 836, {8}))
            && (o.Some? ==> HoldsAcks(bs, o.value))
  {
    if bs != [] {
      AcksExactly(bs[1..]);
      assert forall k :: 1 <= k < |bs| ==> bs[k] == bs[1..][k - 1];
      var rest := Select(bs[1..], ACK);
      if bs[0].typ == 836 {
        assert Select(bs, ACK)[0] == bs[0].value && Select(bs, ACK)[1..] == rest;
      } else {
        assert Select(bs, ACK) == rest;
      }
    }
  }

  /** The fields are readable exactly if all lengths are right, and then hold what the elements hold. */
  lemma FieldsExactly(bs: seq<Block>)
    requires InOrder(bs)
    ensures Fields(bs).Some? <==> AllReadable(bs)
    ensures Fields(bs).Some? ==>
              var p := Fields(bs).value;
              && Holds(bs, 81, p.sequence) && Holds(bs, 82, p.fragIndex) && Holds(bs, 83, p.fragCount)
              && Holds(bs, 832, p.congestionMark) && HoldsAcks(bs, p.acks) && Holds(bs, 840, p.txSequence)
              && HoldsFragment(bs, p.fragment)
  {
    SequenceReads();
    NniReads();
    hide ReadSequence;
    hide ReadNni;
    OptionalExactly(bs, SEQUENCE, ReadSequence, {8});
    OptionalExactly(bs, FRAG_INDEX, ReadNni, {1, 2, 4, 8});
    OptionalExactly(bs, FRAG_COUNT, ReadNni, {1, 2, 4, 8});
    OptionalExactly(bs, CONGESTION_MARK, ReadNni, {1, 2, 4, 8});
    OptionalExactly(bs, TX_SEQUENCE, ReadSequence, {8});
    AcksExactly(bs);
    FragmentExactly(bs);
    ReadableParts(bs);
    hide HasLengths;
    hide FragmentEmpty;
    hide AllReadable;
    hide Carried;
    hide Select;
    hide Optional;
    hide ReadAll;
    hide InOrder;
    hide Holds;
    hide HoldsAcks;
    hide HoldsFragment;
  }

  lemma FragmentExactly(bs: seq<Block>)
    requires InOrder(bs)
    ensures var vs := Select(bs, FRAGMENT);
            && HoldsFragment(bs, if vs == [] then None else Some(vs[0]))
            && ((vs != [] && vs[0] == []) <==> FragmentEmpty(bs))
  {
    hide Select;
    if i :| 0 <= i < |bs| && bs[i].typ == 80 {
      SelectIs(bs, FRAGMENT, i);
      forall j | 0 <= j < |bs| && bs[j].typ == 80
        ensures bs[j].value == bs[i].value
      {
        SelectIs(bs, FRAGMENT, j);
      }
    } else {
      SelectNone(bs, FRAGMENT);
    }
  }

  /** `wireDecode` accepts exactly: one element that is an Interest (5), a Data (6), or an LpPacket (100) of
      accepted, ordered and readable elements. A bare network packet is its own Fragment. */
  lemma DecodesExactly(bs: Bytes)
    ensures DecodePacket(bs).Some? <==>
            && IsElement(bs)
            && (|| ReadElement(bs).value.typ in {5, 6}
                || (ReadElement(bs).value.typ == 100
                    && var parsed := ParseBlocks(bs[ReadElement(bs).value.head..]);
                       parsed.Some? && AllAccepted(parsed.value) && InOrder(parsed.value) && AllReadable(parsed.value)))
    ensures IsElement(bs) && ReadElement(bs).value.typ in {5, 6} ==>
              DecodePacket(bs) == Some(EMPTY.(fragment := Some(bs)))
  {
    hide ParseBlocks;
    hide Fields;
    hide WellOrdered;
    hide AllAccepted;
    hide InOrder;
    hide AllReadable;
    hide ReadElement;
    if IsElement(bs) && ReadElement(bs).value.typ == 100 {
      var parsed := ParseBlocks(bs[ReadElement(bs).value.head..]);
      if parsed.Some? {
        OrderExactly(parsed.value);
        if InOrder(parsed.value) {
          FieldsExactly(parsed.value);
        }
      }
    }
  }
}
