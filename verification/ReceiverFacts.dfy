/** What becomes of a received packet, case by case, for one step and for whole runs. */
module ReceiverFacts {
  import opened Basics
  import opened LpPackets
  import opened Tlv
  import opened Fragmenter
  import opened LinkSpec
  import opened LinkRun
  import D = Duplicates
  import R = Reassembler
  import W = TxWindow

  /** The packet is a duplicate: reliability is on, it carries a Fragment, a TxSequence and a Sequence, and
      that Sequence is remembered. */
  predicate IsDuplicate(o: LinkOptions, r: Receiver, pkt: LpPacket) {
    && o.reliable && pkt.fragment.Some? && pkt.txSequence.Some? && pkt.sequence.Some?
    && pkt.sequence.value in r.recent.times
  }

  /** FragIndex and FragCount, where a missing index is 0 and a missing count is 1; the message identifier
      is the Sequence less the index, modulo 2^64. */
  predicate HasIndex(pkt: LpPacket, index: u64, count: u64, message: u64) {
    && (pkt.fragIndex == Some(index) || (pkt.fragIndex.None? && index == 0))
    && (pkt.fragCount == Some(count) || (pkt.fragCount.None? && count == 1))
    && (pkt.sequence.Some? ==>
          || pkt.sequence.value == message + index
          || pkt.sequence.value + 0x1_0000_0000_0000_0000 == message + index)
  }

  /** The fragment finds a partial packet with another count, or its slot filled. */
  predicate SlotTaken(m: R.Partials, k: R.Id, index: u64, count: u64) {
    && k in m
    && (|m[k].fragments| != count || (index < count && m[k].fragments[index].sequence.Some?))
  }

  /** A packet is dropped exactly in these cases. */
  lemma DroppedWhen(o: LinkOptions, r: Receiver, endpoint: u64, pkt: LpPacket, now: nat, rto: nat, index: u64,
                    count: u64, message: u64)
    requires HasIndex(pkt, index, count, message)
    ensures Receive(o, r, endpoint, pkt, now, rto).1.Dropped? <==>
            || IsDuplicate(o, r, pkt)
            || pkt.fragment.None?
            || (!o.allowReassembly && (pkt.fragIndex.Some? || pkt.fragCount.Some?))
            || index >= count
            || count > o.reassembler.nMaxFragments
            || (count > 1 && pkt.sequence.None?)
            || (count > 1 && SlotTaken(r.partials, R.Id(endpoint, message), index, count))
    ensures Receive(o, r, endpoint, pkt, now, rto).1.Dropped? ==>
            Receive(o, r, endpoint, pkt, now, rto).0.partials == r.partials
  {
    hide R.Reassembled;
    hide R.FirstElement;
    hide D.Purge;
  }

  /** The slots of a message, all of them empty before its first fragment. */
  ghost predicate Slots(m: R.Partials, k: R.Id, count: nat, slots: seq<LpPacket>, nReceived: nat) {
    && (k in m ==> slots == m[k].fragments && nReceived == m[k].nReceived)
    && (k !in m ==> |slots| == count && nReceived == 0 && forall i :: 0 <= i < count ==> slots[i] == EMPTY)
  }

  /** bs is one TLV element, at the start of the buffer. */
  predicate StartsWith(buffer: Bytes, bs: Bytes) {
    IsElement(bs) && bs <= buffer
  }

  predicate AllCarry(frags: seq<LpPacket>) {
    forall i :: 0 <= i < |frags| ==> frags[i].fragment.Some? && frags[i].fragment.value != []
  }

  /** A whole packet that is not dropped is handed up if its payload starts with a TLV element, and is
      malformed otherwise. */
  lemma WholeWhen(o: LinkOptions, r: Receiver, endpoint: u64, pkt: LpPacket, now: nat, rto: nat, index: u64,
                  message: u64)
    requires HasIndex(pkt, index, 1, message) && !Receive(o, r, endpoint, pkt, now, rto).1.Dropped?
    ensures var (r', result) := Receive(o, r, endpoint, pkt, now, rto);
            && r'.partials == r.partials && pkt.fragment.Some?
            && (result.Delivered? ==> StartsWith(pkt.fragment.value, result.netPkt) && result.first == pkt)
            && (result.Malformed? <==> forall bs :: !StartsWith(pkt.fragment.value, bs))
            && (result.Malformed? || result.Delivered?)
  {
    hide D.Purge;
    FirstElementIs(pkt.fragment.value);
    EmptyStarts();
    hide R.FirstElement;
    hide StartsWith;
  }

  /** A fragment that is not dropped reaches its slot. */
  lemma ReachesSlot(o: LinkOptions, r: Receiver, endpoint: u64, pkt: LpPacket, now: nat, rto: nat, index: u64,
                    count: u64, message: u64)
    requires HasIndex(pkt, index, count, message) && count > 1
    requires !Receive(o, r, endpoint, pkt, now, rto).1.Dropped?
    ensures var k := R.Id(endpoint, message);
            var pp := R.Target(r.partials, k, count);
            && index == R.IndexOf(pkt) < |pp.fragments| == count
            && R.Store(o.reassembler, r.partials, k, pp, pkt, now)
               == (Receive(o, r, endpoint, pkt, now, rto).0.partials, Receive(o, r, endpoint, pkt, now, rto).1)
  {
    hide R.Reassembled;
    hide R.FirstElement;
    hide D.Purge;
  }

  /** A fragment that is not dropped fills its slot. The packet is handed up and forgotten when this was
      the last slot and the joined payloads start with a TLV element. */
  lemma FragmentWhen(o: LinkOptions, r: Receiver, endpoint: u64, pkt: LpPacket, now: nat, rto: nat, index: u64,
                     count: u64, message: u64, slots: seq<LpPacket>, nReceived: nat)
    requires HasIndex(pkt, index, count, message) && count > 1
    requires !Receive(o, r, endpoint, pkt, now, rto).1.Dropped?
    requires Slots(r.partials, R.Id(endpoint, message), count, slots, nReceived)
    ensures var (r', result) := Receive(o, r, endpoint, pkt, now, rto);
            var k := R.Id(endpoint, message);
            && index < |slots| == count
            && var full := slots[index := pkt];
               && (result.Stored? <==> nReceived + 1 != count)
               && (result.Stored? ==>
                     r'.partials == r.partials[k := R.Partial(full, nReceived + 1,
                                                              Some(now + o.reassembler.reassemblyTimeout))])
               && (result.Delivered? <==>
                     nReceived + 1 == count && AllCarry(full) && exists bs :: StartsWith(Join(full), bs))
               && (result.Delivered? ==>
                     && StartsWith(Join(full), result.netPkt) && result.first == full[0]
                     && r'.partials == r.partials - {k})
               && (result.Malformed? ==> r'.partials.Keys == r.partials.Keys + {k})
  {
    var k := R.Id(endpoint, message);
    ReachesSlot(o, r, endpoint, pkt, now, rto, index, count, message);
    hide Receive;
    hide HasIndex;
    hide Join;
    assert k !in r.partials ==> slots == seq(count, _ => EMPTY);
    assert slots == R.Target(r.partials, k, count).fragments;
    var full := slots[index := pkt];
    ReassembledExactly(full);
    hide R.Reassembled;
    hide StartsWith;
    hide AllCarry;
  }

  /** Reassembly gives the element at the start of the joined payloads, if all slots carry some. */
  lemma ReassembledExactly(full: seq<LpPacket>)
    ensures R.Reassembled(full).Some? <==> AllCarry(full) && exists bs :: StartsWith(Join(full), bs)
    ensures R.Reassembled(full).Some? ==> AllCarry(full) && StartsWith(Join(full), R.Reassembled(full).value)
  {
    hide Join;
    hide StartsWith;
    assert R.AllPayload(full) <==> AllCarry(full);
    if AllCarry(full) {
      FirstElementIs(Join(full));
      var first := R.FirstElement(Join(full));
      hide R.FirstElement;
      assert first.Some? ==> StartsWith(Join(full), first.value);
    }
  }

  lemma EmptyStarts()
    ensures forall bs :: !StartsWith([], bs)
  {
  }

  /** What is taken from a buffer is the one element at its start, if there is one. */
  lemma FirstElementIs(buffer: Bytes)
    ensures R.FirstElement(buffer).Some? ==> StartsWith(buffer, R.FirstElement(buffer).value)
    ensures R.FirstElement(buffer).None? ==> forall bs :: !StartsWith(buffer, bs)
  {
    if ReadElement(buffer).Some? {
      PrefixReads(buffer);
    } else {
      forall bs
        ensures !StartsWith(buffer, bs)
      {
        if bs <= buffer && ReadElement(bs).Some? {
          assert bs + buffer[|bs|..] == buffer;
          ReadElementExtends(bs, buffer[|bs|..]);
        }
      }
    }
  }

  // ---- runs without reassembly ----

  /** The packets that arrive, in order. */
  function Arriving(events: seq<Event>): seq<LpPacket>
    decreases |events|
  {
    if events == [] then []
    else
      var e := events[|events| - 1];
      Arriving(events[..|events| - 1]) + (if e.Deliver? then [e.pkt] else [])
  }

  /** Without reassembly nothing is collected, and every packet with an index or a count is dropped. */
  ghost predicate Unassembled(s: Link, pkts: seq<LpPacket>) {
    && s.receiver.partials == map[] && |s.results| == |pkts|
    && forall i :: 0 <= i < |pkts| && (pkts[i].fragIndex.Some? || pkts[i].fragCount.Some?) ==> s.results[i] == R.Dropped
  }

  lemma StepUnassembled(o: LinkOptions, ro: LinkOptions, s: Link, e: Event, pkts: seq<LpPacket>)
    requires Enabled(o, ro, s, e) && !ro.allowReassembly && Unassembled(s, pkts)
    ensures Unassembled(Step(o, ro, s, e), pkts + (if e.Deliver? then [e.pkt] else []))
  {
    hide W.Inv;
    hide Admit;
    hide W.ProcessAck;
    hide W.Lose;
    hide IsSplit;
    hide D.Receive;
    hide R.FirstElement;
    hide AllOutgoing;
  }

  /** In every run with a receiver that does not reassemble. */
  lemma {:induction false} NoReassembly(o: LinkOptions, ro: LinkOptions, events: seq<Event>, s: Link)
    requires Reaches(o, ro, events, s) && !ro.allowReassembly
    ensures s.receiver.partials == map[] && |s.results| == |Arriving(events)|
    ensures forall i :: 0 <= i < |s.results| ==>
              var pkt := Arriving(events)[i];
              pkt.fragIndex.Some? || pkt.fragCount.Some? ==> s.results[i] == R.Dropped
    decreases |events|
  {
    hide Step;
    hide Enabled;
    if events != [] {
      var n := |events| - 1;
      var p :| Reaches(o, ro, events[..n], p) && Enabled(o, ro, p, events[n]) && s == Step(o, ro, p, events[n]);
      NoReassembly(o, ro, events[..n], p);
      StepUnassembled(o, ro, p, events[n], Arriving(events[..n]));
    }
  }

  // ---- duplicate suppression in runs ----

  /** The arrivals that duplicate suppression sees: fragments with a TxSequence and a Sequence. */
  function Recorded(events: seq<Event>): seq<D.Arrival>
    decreases |events|
  {
    if events == [] then []
    else
      var e := events[|events| - 1];
      Recorded(events[..|events| - 1])
      + (if e.Deliver? && e.pkt.fragment.Some? && e.pkt.txSequence.Some? && e.pkt.sequence.Some?
         then [D.Arrival(e.pkt.sequence.value, e.now, e.rto)] else [])
  }

  lemma RecordNext(front: seq<D.Arrival>, a: D.Arrival)
    ensures D.Record(front + [a]) == D.Receive(D.Record(front), a.s, a.now, a.rto).0
  {
    assert (front + [a])[..|front|] == front;
  }

  lemma StepRecorded(o: LinkOptions, ro: LinkOptions, s: Link, e: Event)
    requires Enabled(o, ro, s, e)
    ensures Step(o, ro, s, e).receiver.recent
            == if ro.reliable && e.Deliver? && e.pkt.fragment.Some? && e.pkt.txSequence.Some? && e.pkt.sequence.Some?
               then D.Receive(s.receiver.recent, e.pkt.sequence.value, e.now, e.rto).0 else s.receiver.recent
  {
    hide W.Inv;
    hide Admit;
    hide W.ProcessAck;
    hide W.Lose;
    hide IsSplit;
    hide D.Receive;
    hide R.Add;
    hide AllOutgoing;
  }

  /** In every run the record of a reliable receiver is that of exactly these arrivals, in order. */
  lemma {:induction false} RecentIsRecord(o: LinkOptions, ro: LinkOptions, events: seq<Event>, s: Link)
    requires Reaches(o, ro, events, s)
    ensures s.receiver.recent == if ro.reliable then D.Record(Recorded(events)) else D.NOTHING
    decreases |events|
  {
    hide Step;
    hide Enabled;
    hide D.Receive;
    if events != [] {
      var n := |events| - 1;
      var e := events[n];
      var p :| Reaches(o, ro, events[..n], p) && Enabled(o, ro, p, e) && s == Step(o, ro, p, e);
      RecentIsRecord(o, ro, events[..n], p);
      StepRecorded(o, ro, p, e);
      assert Recorded(events[..n]) + [] == Recorded(events[..n]);
      if e.Deliver? && e.pkt.sequence.Some? {
        RecordNext(Recorded(events[..n]), D.Arrival(e.pkt.sequence.value, e.now, e.rto));
      }
    }
  }

  /** In every run the next packet is a duplicate exactly if it is recorded and the theorems about records
      call it one. */
  lemma DuplicateInRun(o: LinkOptions, ro: LinkOptions, events: seq<Event>, s: Link, pkt: LpPacket, now: nat, rto: nat)
    requires Reaches(o, ro, events, s) && ro.reliable
    requires pkt.fragment.Some? && pkt.txSequence.Some? && pkt.sequence.Some?
    ensures var a := D.Arrival(pkt.sequence.value, now, rto);
            IsDuplicate(ro, s.receiver, pkt) <==> D.ReportedDuplicate(Recorded(events) + [a], |Recorded(events)|)
  {
    RecentIsRecord(o, ro, events, s);
    var front, a := Recorded(events), D.Arrival(pkt.sequence.value, now, rto);
    assert (front + [a])[..|front|] == front;
  }
}
