/** The MTU rules in octets and in terms of the two options: the override set on the face and the limit
    of the transport. */
module MtuLimits {
  import opened Basics
  import opened LpPackets
  import opened LpWire
  import opened SendPath
  import opened LinkSpec

  /** n octets are more than the transport or the override allows. */
  predicate Exceeds(o: LinkOptions, n: nat) {
    o.transportMtu != -1 && (n > o.overrideMtu || n > o.transportMtu)
  }

  lemma TooLargeOctets(o: LinkOptions, p: LpPacket)
    requires ProperMtus(o)
    ensures TooLarge(EffectiveMtu(o), p) <==> Exceeds(o, |EncodePacket(p)|)
  {
    EncodedSize(p);
    TooLargeExactly(o, p);
  }

  /** Of the packets as they leave, exactly those on the wire are within both limits; they stay in order. */
  lemma {:induction false} WireIsWithinLimits(o: LinkOptions, es: seq<Emission>)
    requires ProperMtus(o)
    ensures forall i :: 0 <= i < |OnWire(EffectiveMtu(o), es)| ==>
              !Exceeds(o, |EncodePacket(OnWire(EffectiveMtu(o), es)[i])|)
    ensures forall i :: 0 <= i < |es| && !Exceeds(o, |EncodePacket(Leaving(es[i]))|) ==>
              Leaving(es[i]) in OnWire(EffectiveMtu(o), es)
    ensures forall i :: 0 <= i < |es| && Exceeds(o, |EncodePacket(Leaving(es[i]))|) ==>
              Leaving(es[i]) !in OnWire(EffectiveMtu(o), es)
    ensures |OnWire(EffectiveMtu(o), es)| <= |es|
    decreases |es|
  {
    hide EncodePacket;
    hide Leaving;
    hide TooLarge;
    hide EffectiveMtu;
    if es != [] {
      var front, p := es[..|es| - 1], Leaving(es[|es| - 1]);
      WireIsWithinLimits(o, front);
      TooLargeOctets(o, p);
      hide Exceeds;
      var w, w' := OnWire(EffectiveMtu(o), front), OnWire(EffectiveMtu(o), es);
      assert w' == w + (if TooLarge(EffectiveMtu(o), p) then [] else [p]);
      assert forall i :: 0 <= i < |front| ==> es[i] == front[i];
      forall i | 0 <= i < |es|
        ensures !Exceeds(o, |EncodePacket(Leaving(es[i]))|) <==> Leaving(es[i]) in w'
      {
        if i < |front| {
          assert es[i] == front[i];
        }
      }
    }
  }

  /** On an unlimited transport nothing is dropped, whatever the override: every packet is on the wire, in
      its place. */
  lemma {:induction false} UnlimitedKeepsAll(o: LinkOptions, es: seq<Emission>)
    requires o.transportMtu == -1 && o.overrideMtu >= 0
    ensures |OnWire(EffectiveMtu(o), es)| == |es|
    ensures forall i :: 0 <= i < |es| ==> OnWire(EffectiveMtu(o), es)[i] == Leaving(es[i])
    decreases |es|
  {
    hide Leaving;
    if es != [] {
      UnlimitedKeepsAll(o, es[..|es| - 1]);
    }
  }

  /** The limits as options: nothing on the wire of a limited transport is longer than the override or the
      limit; a packet within both, as it leaves, is on the wire; an unlimited transport drops nothing. */
  lemma LimitsHold(o: LinkOptions, es: seq<Emission>, passed: seq<LpPacket>, wire: seq<LpPacket>, attached: seq<u64>,
                   nOutOverMtu: nat)
    requires ProperMtus(o) && EmissionsMatch(EffectiveMtu(o), es, passed, wire, attached, nOutOverMtu)
    ensures o.transportMtu != -1 ==>
              forall i :: 0 <= i < |wire| ==>
                |EncodePacket(wire[i])| <= o.overrideMtu && |EncodePacket(wire[i])| <= o.transportMtu
    ensures forall i :: 0 <= i < |es| ==>
              var p := Leaving(es[i]);
              |EncodePacket(p)| <= o.overrideMtu && |EncodePacket(p)| <= o.transportMtu ==> p in wire
    ensures o.transportMtu == -1 ==> nOutOverMtu == 0 && |wire| == |passed|
    ensures nOutOverMtu > 0 <==> exists i :: 0 <= i < |es| && Exceeds(o, |EncodePacket(Leaving(es[i]))|)
  {
    hide EncodePacket;
    WireIsWithinLimits(o, es);
    AllKeptWithin(o, es);
    if o.transportMtu == -1 {
      UnlimitedKeepsAll(o, es);
    }
  }

  /** Something is dropped exactly if some packet exceeds a limit as it leaves. */
  lemma {:induction false} AllKeptWithin(o: LinkOptions, es: seq<Emission>)
    requires ProperMtus(o)
    ensures |OnWire(EffectiveMtu(o), es)| < |es| <==>
            exists i :: 0 <= i < |es| && Exceeds(o, |EncodePacket(Leaving(es[i]))|)
    ensures |OnWire(EffectiveMtu(o), es)| <= |es|
    decreases |es|
  {
    hide EncodePacket;
    hide Leaving;
    hide TooLarge;
    hide EffectiveMtu;
    if es != [] {
      var front, n := es[..|es| - 1], |es| - 1;
      AllKeptWithin(o, front);
      TooLargeOctets(o, Leaving(es[n]));
      hide Exceeds;
      assert forall i :: 0 <= i < |front| ==> es[i] == front[i];
      if i :| 0 <= i < |front| && Exceeds(o, |EncodePacket(Leaving(front[i]))|) {
        assert Exceeds(o, |EncodePacket(Leaving(es[i]))|);
      } else if Exceeds(o, |EncodePacket(Leaving(es[n]))|) {
      } else {
        assert forall i :: 0 <= i < |es| ==> es[i] == (if i < n then front[i] else es[n]);
      }
    }
  }

  /** On an unlimited transport piggyback works as with an MTU of 8800. */
  lemma UnlimitedAcks(pkt: LpPacket, n: nat)
    ensures AcksAttached(pkt, -1, n) == AcksAttached(pkt, 8800, n)
  {
  }
}
