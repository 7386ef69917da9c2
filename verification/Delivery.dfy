/** On a reliable link, what counts as acknowledged has been delivered. */
module Delivery {
  import opened Basics
  import opened LpPackets
  import opened Tlv
  import opened Fragmenter
  import opened LinkSpec
  import opened ReassemblyRuns
  import opened LinkRun
  import D = Duplicates
  import R = Reassembler
  import W = TxWindow
  import WR = WindowRuns
  import H = WindowHistory

  // ---- what is tracked of one message ----

  /** Some transmission of fragment i of message n has arrived. */
  predicate HasArrived(s: Link, n: nat, i: nat)
    requires n < |s.starts|
  {
    exists j :: 0 <= j < |s.arrivals| && s.arrivals[j] < |s.w.log|
                && s.w.log[s.arrivals[j]] == W.FragId(s.starts[n] + i, n)
  }

  predicate DeliveredOf(s: Link, n: nat)
    requires n < |s.accepted|
  {
    exists r :: 0 <= r < |s.results| && s.results[r].Delivered?
                && IsDelivery(s.accepted[n], s.results[r].netPkt, s.results[r].first)
  }

  predicate SlotFilled(m: R.Partials, k: R.Id, i: nat) {
    k in m && i < |m[k].fragments| && m[k].fragments[i].sequence.Some?
  }

  /** Message n has been delivered, or all its fragments that arrived are kept in their slots. */
  ghost predicate Kept(s: Link, endpoint: u64, n: nat)
    requires |s.starts| == |s.accepted|
  {
    n < |s.accepted| ==>
      || DeliveredOf(s, n)
      || forall i :: 0 <= i < |s.accepted[n].frags| && HasArrived(s, n, i) ==>
           |s.accepted[n].frags| > 1 && SlotFilled(s.receiver.partials, IdOf(endpoint, s.accepted[n]), i)
  }

  predicate SequenceArrived(s: Link, x: u64) {
    exists j :: 0 <= j < |s.arrivals| && s.arrivals[j] < |s.sent| && s.sent[s.arrivals[j]].sequence == Some(x)
  }

  /** Duplicate suppression remembers only Sequences that arrived. */
  ghost predicate RecentArrived(s: Link) {
    forall x :: x in s.receiver.recent.times || x in s.receiver.recent.queue ==> SequenceArrived(s, x)
  }

  // ---- the fragments behind the transmissions ----

  /** Which fragment transmission t carries. */
  lemma CarriedBy(o: LinkOptions, s: Link, t: nat) returns (n: nat, i: nat)
    requires SenderInv(o, s) && o.reliable && t < |s.sent|
    ensures |s.sent| == |s.w.log| && n < |s.accepted| == |s.starts| && i < |s.accepted[n].frags|
    ensures s.w.log[t] == W.FragId(s.starts[n] + i, n)
    ensures Emitted(o, s.accepted[n], i, s.sent[t]) && s.sent[t].txSequence.Some?
    ensures GoodMessage(s.accepted[n])
  {
    hide AllFromSome;
    hide WR.RunInv;
    hide W.Inv;
    hide H.Fates;
    hide H.Logged;
    hide Key;
    var x := s.w.log[t];
    assert KnownFragment(s, x);
    n, i := x.net, x.first - s.starts[x.net];
    assert FirstSent(o, s, n, i);
    assert s.sent[t] == W.Numbered(s.sent[x.first], t);
  }

  /** Within 2^64 Sequences, equal Sequences mean the same fragment. */
  lemma SameSequence(o: LinkOptions, s: Link, m: nat, i: nat, n: nat, j: nat)
    requires Messages(o, s) && s.nSeq <= M64 && m < |s.accepted| && n < |s.accepted|
    requires Sequential(o, s.accepted[m]) && Sequential(o, s.accepted[n])
    requires i < |s.accepted[m].frags| && j < |s.accepted[n].frags|
    requires Key(s.accepted[m].base + i) == Key(s.accepted[n].base + j)
    ensures m == n && i == j
  {
    hide Key;
    hide GoodMessage;
    assert m < n ==> EndOf(s.accepted[m]) <= s.accepted[n].base;
    assert n < m ==> EndOf(s.accepted[n]) <= s.accepted[m].base;
    var a, b := s.accepted[m].base + i, s.accepted[n].base + j;
    if a < b {
      KeyInjective(a, b);
    } else if b < a {
      KeyInjective(b, a);
    }
  }

  /** A transmission whose Sequence has arrived before carries a fragment that has arrived before. */
  lemma DuplicateArrived(o: LinkOptions, s: Link, t: nat, n: nat, i: nat)
    requires SenderInv(o, s) && o.reliable && s.nSeq <= M64 && t < |s.sent|
    requires n < |s.accepted| == |s.starts| && i < |s.accepted[n].frags| && Emitted(o, s.accepted[n], i, s.sent[t])
    requires s.sent[t].sequence.Some? && SequenceArrived(s, s.sent[t].sequence.value)
    ensures HasArrived(s, n, i)
  {
    hide WindowInv;
    hide AllFromSome;
    hide Messages;
    hide Key;
    var j :| 0 <= j < |s.arrivals| && s.arrivals[j] < |s.sent|
             && s.sent[s.arrivals[j]].sequence == Some(s.sent[t].sequence.value);
    var n', i' := CarriedBy(o, s, s.arrivals[j]);
    SameSequence(o, s, n, i, n', i');
  }

  // ---- what one arrival does ----

  lemma {:induction false} PurgeSubset(r: D.Recent, now: nat, rto: nat, x: u64)
    requires x in D.Purge(r, now, rto).times || x in D.Purge(r, now, rto).queue
    ensures x in r.times || x in r.queue
    decreases |r.queue|
  {
    if r.queue != [] {
      var front := r.queue[0];
      var times := D.Touch(r.times, front);
      if now > times[front] + rto {
        PurgeSubset(D.Recent(times - {front}, r.queue[1..]), now, rto, x);
      }
    }
  }

  /** Adding a fragment changes no other partial packet. */
  lemma AddElsewhere(o: R.Options, m: R.Partials, endpoint: u64, pkt: LpPacket, now: nat, k: R.Id, i: nat)
    requires pkt.sequence.Some? ==> k != R.Id(endpoint, R.MessageOf(pkt))
    ensures SlotFilled(m, k, i) ==> SlotFilled(R.Add(o, m, endpoint, pkt, now).0, k, i)
  {
    hide R.Reassembled;
  }

  /** A fragment that is added fills its slot or completes the packet, and empties no slot otherwise. */
  lemma AddFills(o: R.Options, m: R.Partials, endpoint: u64, pkt: LpPacket, now: nat, i: nat)
    requires pkt.sequence.Some? && R.IndexOf(pkt) < R.CountOf(pkt) <= o.nMaxFragments && R.CountOf(pkt) > 1
    requires |R.Target(m, R.Id(endpoint, R.MessageOf(pkt)), R.CountOf(pkt)).fragments| == R.CountOf(pkt)
    ensures var (m', r) := R.Add(o, m, endpoint, pkt, now);
            var k := R.Id(endpoint, R.MessageOf(pkt));
            !r.Delivered? ==> SlotFilled(m', k, R.IndexOf(pkt)) && (SlotFilled(m, k, i) ==> SlotFilled(m', k, i))
  {
    hide R.Reassembled;
  }

  /** A packet that was not split is delivered on arrival. */
  lemma SingleDelivered(o: R.Options, m: R.Partials, endpoint: u64, g: Message, sent: LpPacket, pkt: LpPacket, now: nat,
                        lo: LinkOptions)
    requires GoodMessage(g) && |g.frags| == 1 && Emitted(lo, g, 0, sent) && Arrives(pkt, sent) && o.nMaxFragments >= 1
    ensures var r := R.Add(o, m, endpoint, pkt, now).1; r.Delivered? && IsDelivery(g, r.netPkt, r.first)
  {
    hide Key;
    SingleGood(o, m, endpoint, g, sent, pkt, now, lo);
    assert g.frags == [g.p];
  }

  /** A fragment of a split message is delivered with it, or kept with all others kept so far. */
  lemma SplitKept(o: LinkOptions, ro: R.Options, s: Link, endpoint: u64, n: nat, i: nat, sent: LpPacket, pkt: LpPacket,
                  now: nat, h: nat)
    requires Messages(o, s) && s.nSeq <= M64 && ReceiverInv(s)
    requires n < |s.accepted| && 1 < |s.accepted[n].frags| <= ro.nMaxFragments
    requires Emitted(o, s.accepted[n], i, sent) && Arrives(pkt, sent)
    ensures var (m', r) := R.Add(ro, s.receiver.partials, endpoint, pkt, now);
            var k := IdOf(endpoint, s.accepted[n]);
            if r.Delivered? then IsDelivery(s.accepted[n], r.netPkt, r.first)
            else SlotFilled(m', k, i) && (SlotFilled(s.receiver.partials, k, h) ==> SlotFilled(m', k, h))
  {
    hide Key;
    hide Emitted;
    hide Arrives;
    hide R.Inv;
    hide PartialFrom;
    hide R.Store;
    hide SlotOf;
    hide IsDelivery;
    hide SlotFilled;
    var m, g := s.receiver.partials, s.accepted[n];
    ArrivesAsFragment(o, g, i, sent, pkt);
    var k := R.Id(endpoint, R.MessageOf(pkt));
    var pp := R.Target(m, k, |g.frags|);
    TargetFrom(o, s, k, n);
    TargetSize(g, k, pp);
    AddFills(ro, m, endpoint, pkt, now, h);
    if pp.fragments[i].sequence.None? {
      StoreGood(ro, m, k, g, pp, pkt, now);
    }
  }

  // ---- steps ----

  /** A receiver that is able to deliver the message. */
  predicate Able(ro: LinkOptions, g: Message) {
    |g.frags| <= ro.reassembler.nMaxFragments && (|g.frags| > 1 ==> ro.allowReassembly)
  }

  ghost predicate Tracked(ro: LinkOptions, s: Link, endpoint: u64, n: nat) {
    && |s.starts| == |s.accepted| && RecentArrived(s) && Kept(s, endpoint, n)
    && (!ro.reliable ==> s.arrivals == [])
  }

  /** Steps that bring nothing to the receiver keep what is kept. */
  lemma KeptByOthers(s: Link, s': Link, endpoint: u64, n: nat)
    requires |s.starts| == |s.accepted| && |s'.starts| == |s'.accepted| && n < |s.accepted|
    requires s.accepted <= s'.accepted && s.starts <= s'.starts && s.w.log <= s'.w.log
    requires s'.arrivals == s.arrivals && s'.results == s.results
    requires forall j :: 0 <= j < |s.arrivals| ==> s.arrivals[j] < |s.w.log|
    requires forall i :: SlotFilled(s.receiver.partials, IdOf(endpoint, s.accepted[n]), i) ==>
               SlotFilled(s'.receiver.partials, IdOf(endpoint, s.accepted[n]), i)
    requires Kept(s, endpoint, n)
    ensures Kept(s', endpoint, n)
  {
    hide SlotFilled;
    hide IsDelivery;
    hide Key;
    assert s'.accepted[n] == s.accepted[n] && s'.starts[n] == s.starts[n];
    if DeliveredOf(s, n) {
      var r :| 0 <= r < |s.results| && s.results[r].Delivered?
               && IsDelivery(s.accepted[n], s.results[r].netPkt, s.results[r].first);
      assert s'.results[r] == s.results[r];
    } else {
      forall i | 0 <= i < |s.accepted[n].frags| && HasArrived(s', n, i)
        ensures HasArrived(s, n, i)
      {
        var j :| 0 <= j < |s'.arrivals| && s'.arrivals[j] < |s'.w.log|
                 && s'.w.log[s'.arrivals[j]] == W.FragId(s'.starts[n] + i, n);
        assert s.arrivals[j] < |s.w.log|;
      }
    }
  }

  lemma RecentByOthers(s: Link, s': Link)
    requires RecentArrived(s) && s'.receiver.recent == s.receiver.recent
    requires s'.arrivals == s.arrivals && s.sent <= s'.sent
    ensures RecentArrived(s')
  {
    forall x | x in s'.receiver.recent.times || x in s'.receiver.recent.queue
      ensures SequenceArrived(s', x)
    {
      assert SequenceArrived(s, x);
      var j :| 0 <= j < |s.arrivals| && s.arrivals[j] < |s.sent| && s.sent[s.arrivals[j]].sequence == Some(x);
      assert s'.sent[s'.arrivals[j]] == s.sent[s.arrivals[j]];
    }
  }

  /** Nothing of a message has arrived when it is accepted. */
  lemma NewMessage(o: LinkOptions, s: Link, s': Link, endpoint: u64)
    requires SenderInv(o, s) && o.reliable && AckInv(o, s)
    requires |s'.starts| == |s'.accepted| == |s.accepted| + 1 && s'.arrivals == s.arrivals && s.w.log <= s'.w.log
    ensures Kept(s', endpoint, |s.accepted|)
  {
    hide Messages;
    hide AllFromSome;
    hide WR.RunInv;
    hide H.History;
    hide SlotFilled;
    hide DeliveredOf;
    hide FirstSent;
    var n := |s.accepted|;
    forall i | 0 <= i < |s'.accepted[n].frags|
      ensures !HasArrived(s', n, i)
    {
      forall j | 0 <= j < |s'.arrivals| && s'.arrivals[j] < |s'.w.log|
        ensures s'.w.log[s'.arrivals[j]] != W.FragId(s'.starts[n] + i, n)
      {
        assert KnownFragment(s, s.w.log[s.arrivals[j]]);
      }
    }
  }

  lemma ArrivalsLogged(o: LinkOptions, s: Link)
    requires SenderInv(o, s) && o.reliable && AckInv(o, s)
    ensures |s.w.log| == |s.sent| && forall j :: 0 <= j < |s.arrivals| ==> s.arrivals[j] < |s.w.log|
  {
    hide Messages;
    hide AllFromSome;
    hide WR.RunInv;
    hide Origins;
    LogSize(s.w, s.sent);
  }

  lemma SubmitTracked(o: LinkOptions, ro: LinkOptions, s: Link, e: Event, endpoint: u64, n: nat)
    requires LinkInv(o, s) && o.reliable && e.Submit? && Enabled(o, ro, s, e) && Tracked(ro, s, endpoint, n)
    ensures Tracked(ro, Step(o, ro, s, e), endpoint, n)
  {
    hide SenderInv;
    hide ReceiverInv;
    hide W.Inv;
    hide W.HandleOutgoing;
    hide IsSplit;
    hide IsNetPacket;
    hide AllOutgoing;
    hide SequencedAll;
    hide Kept;
    hide RecentArrived;
    var s' := Step(o, ro, s, e);
    OutgoingLog(o, ro, s, e);
    ArrivalsLogged(o, s);
    RecentByOthers(s, s');
    if n < |s.accepted| {
      KeptByOthers(s, s', endpoint, n);
    } else if n == |s.accepted| {
      NewMessage(o, s, s', endpoint);
    } else {
      NotYet(s', endpoint, n);
    }
  }

  lemma NotYet(s: Link, endpoint: u64, n: nat)
    requires |s.starts| == |s.accepted| <= n
    ensures Kept(s, endpoint, n)
  {
  }

  lemma OutgoingLog(o: LinkOptions, ro: LinkOptions, s: Link, e: Event)
    requires SenderInv(o, s) && o.reliable && e.Submit? && Enabled(o, ro, s, e)
    ensures s.w.log <= Step(o, ro, s, e).w.log
  {
    hide Messages;
    hide AllFromSome;
    hide Origins;
    hide WR.RunInv;
    hide H.History;
    hide W.HandleOutgoing;
    hide SequencedAll;
    hide IsNetPacket;
    hide IsSplit;
    SplitNotEmpty(e.p, e.frags);
    OutgoingSize(o, e.frags, s.nSeq, s.w.next);
    H.OutgoingHistory(s.w, SequencedAll(o, e.frags, s.nSeq), e.p, e.isInterest, s.sent);
  }

  lemma ResendTracked(o: LinkOptions, ro: LinkOptions, s: Link, e: Event, endpoint: u64, n: nat)
    requires LinkInv(o, s) && o.reliable && (e.AckArrives? || e.RtoExpires?) && Enabled(o, ro, s, e)
    requires Tracked(ro, s, endpoint, n)
    ensures Tracked(ro, Step(o, ro, s, e), endpoint, n)
  {
    hide ReceiverInv;
    hide Messages;
    hide AllFromSome;
    hide Origins;
    hide WR.RunInv;
    hide H.History;
    hide W.ProcessAck;
    hide W.Lose;
    hide Kept;
    hide RecentArrived;
    if e.AckArrives? {
      H.AckHistory(o.window, s.w, s.sent[s.arrivals[e.j]].txSequence.value, s.sent);
    } else {
      H.LoseHistory(o.window, s.w, W.FindKey(s.w.live, e.k).value, s.sent);
    }
    var s' := Step(o, ro, s, e);
    ArrivalsLogged(o, s);
    RecentByOthers(s, s');
    if n < |s.accepted| {
      KeptByOthers(s, s', endpoint, n);
    } else {
      NotYet(s', endpoint, n);
    }
  }

  lemma DropTracked(o: LinkOptions, ro: LinkOptions, s: Link, e: Event, endpoint: u64, n: nat)
    requires LinkInv(o, s) && o.reliable && (e.DropPartial? || e.AttachAcks?) && Enabled(o, ro, s, e)
    requires Tracked(ro, s, endpoint, n)
    requires e.DropPartial? && n < |s.accepted| ==> e.id != IdOf(endpoint, s.accepted[n])
    ensures Tracked(ro, Step(o, ro, s, e), endpoint, n)
  {
    hide SenderInv;
    hide ReceiverInv;
    hide W.Inv;
    hide Kept;
    hide RecentArrived;
    hide Key;
    var s' := Step(o, ro, s, e);
    ArrivalsLogged(o, s);
    RecentByOthers(s, s');
    if n < |s.accepted| {
      KeptByOthers(s, s', endpoint, n);
    } else {
      NotYet(s', endpoint, n);
    }
  }

  // ---- an arrival ----

  /** What a packet of the link looks like to the receiver. */
  lemma ArrivesWhole(o: LinkOptions, g: Message, i: nat, sent: LpPacket, pkt: LpPacket)
    requires o.reliable && GoodMessage(g) && Emitted(o, g, i, sent) && Arrives(pkt, sent) && sent.txSequence.Some?
    ensures pkt.fragment.Some? && pkt.txSequence.Some? && pkt.sequence.Some? && pkt.sequence == sent.sequence
    ensures IsIndexed(pkt) ==> |g.frags| > 1
  {
    hide Key;
    hide Join;
    hide IsElement;
    if g.frags == [g.p] {
    } else {
      assert IsPiece(g.p, g.frags[i], i, |g.frags|);
    }
  }

  /** After an arrival, duplicate suppression still remembers only what arrived. */
  lemma RecentAfterArrival(s: Link, s': Link, t: nat, x: u64, now: nat, rto: nat)
    requires RecentArrived(s) && t < |s.sent| && s.sent[t].sequence == Some(x)
    requires s'.sent == s.sent && s'.arrivals == s.arrivals + [t]
    requires s'.receiver.recent == D.Receive(s.receiver.recent, x, now, rto).0
    ensures RecentArrived(s')
  {
    hide D.Purge;
    forall y | y in s'.receiver.recent.times || y in s'.receiver.recent.queue
      ensures SequenceArrived(s', y)
    {
      if y == x {
        assert s'.arrivals[|s.arrivals|] == t;
      } else {
        PurgeSubset(s.receiver.recent, now, rto, y);
        assert SequenceArrived(s, y);
        var j :| 0 <= j < |s.arrivals| && s.arrivals[j] < |s.sent| && s.sent[s.arrivals[j]].sequence == Some(y);
        assert s'.arrivals[j] == s.arrivals[j];
      }
    }
  }

  /** What an arrival adds to the fragments that have arrived. */
  lemma ArrivedAfter(s: Link, s': Link, t: nat, n: nat, i: nat)
    requires t < |s.w.log| && n < |s.starts| && s'.w == s.w && s'.starts == s.starts && s'.arrivals == s.arrivals + [t]
    requires HasArrived(s', n, i)
    ensures HasArrived(s, n, i) || s.w.log[t] == W.FragId(s.starts[n] + i, n)
  {
    var j :| 0 <= j < |s'.arrivals| && s'.arrivals[j] < |s'.w.log|
             && s'.w.log[s'.arrivals[j]] == W.FragId(s'.starts[n] + i, n);
    if j < |s.arrivals| {
      assert s'.arrivals[j] == s.arrivals[j];
    }
  }

  lemma DeliveredGrows(s: Link, s': Link, n: nat, r: R.Result)
    requires n < |s.accepted| && s'.accepted == s.accepted && s'.results == s.results + [r]
    ensures DeliveredOf(s, n) ==> DeliveredOf(s', n)
    ensures r.Delivered? && IsDelivery(s.accepted[n], r.netPkt, r.first) ==> DeliveredOf(s', n)
  {
    hide IsDelivery;
    if DeliveredOf(s, n) {
      var i :| 0 <= i < |s.results| && s.results[i].Delivered?
               && IsDelivery(s.accepted[n], s.results[i].netPkt, s.results[i].first);
      assert s'.results[i] == s.results[i];
    }
    assert s'.results[|s.results|] == r;
  }

  /** An arrival that belongs to another message. */
  lemma OtherArrival(o: LinkOptions, ro: LinkOptions, s: Link, e: Event, n: nat, m: nat, i: nat, h: nat)
    requires SenderInv(o, s) && o.reliable && s.nSeq <= M64 && e.Deliver? && Enabled(o, ro, s, e)
    requires n < |s.accepted| && m < |s.accepted| && m != n && |s.accepted[n].frags| > 1
    requires i < |s.accepted[m].frags| && Emitted(o, s.accepted[m], i, s.sent[e.t]) && s.sent[e.t].txSequence.Some?
    requires SlotFilled(s.receiver.partials, IdOf(e.endpoint, s.accepted[n]), h)
    ensures SlotFilled(Step(o, ro, s, e).receiver.partials, IdOf(e.endpoint, s.accepted[n]), h)
  {
    hide WindowInv;
    hide AllFromSome;
    hide Emitted;
    hide Arrives;
    hide R.Add;
    hide SlotFilled;
    hide Key;
    hide W.Inv;
    var g := s.accepted[m];
    assert GoodMessage(g);
    hide GoodMessage;
    if |g.frags| > 1 {
      ArrivesAsFragment(o, g, i, s.sent[e.t], e.pkt);
      if Key(g.base) == Key(s.accepted[n].base) {
        SameBase(o, s, m, n);
      }
      AddElsewhere(ro.reassembler, s.receiver.partials, e.endpoint, e.pkt, e.now, IdOf(e.endpoint, s.accepted[n]), h);
    } else {
      SingleGood(ro.reassembler, s.receiver.partials, e.endpoint, g, s.sent[e.t], e.pkt, e.now, o);
    }
  }

  /** An arrival that belongs to the message and is no duplicate. */
  lemma OwnArrival(o: LinkOptions, ro: LinkOptions, s: Link, e: Event, n: nat, i: nat, h: nat)
    requires SenderInv(o, s) && ReceiverInv(s) && o.reliable && s.nSeq <= M64 && e.Deliver? && Enabled(o, ro, s, e)
    requires n < |s.accepted| && Able(ro, s.accepted[n])
    requires i < |s.accepted[n].frags| && Emitted(o, s.accepted[n], i, s.sent[e.t]) && s.sent[e.t].txSequence.Some?
    requires ro.reliable ==> !RecentAfter(s.receiver.recent, e.pkt, e.now, e.rto).1
    ensures var (p, r) := Receive(ro, s.receiver, e.endpoint, e.pkt, e.now, e.rto);
            var k := IdOf(e.endpoint, s.accepted[n]);
            if r.Delivered? then IsDelivery(s.accepted[n], r.netPkt, r.first)
            else && |s.accepted[n].frags| > 1 && SlotFilled(p.partials, k, i)
                 && (SlotFilled(s.receiver.partials, k, h) ==> SlotFilled(p.partials, k, h))
  {
    hide WindowInv;
    hide AllFromSome;
    hide Emitted;
    hide Arrives;
    hide R.Add;
    hide SlotFilled;
    hide Key;
    hide W.Inv;
    hide ReceiverInv;
    hide IsDelivery;
    hide RecentAfter;
    var g := s.accepted[n];
    assert GoodMessage(g);
    hide GoodMessage;
    ArrivesWhole(o, g, i, s.sent[e.t], e.pkt);
    if |g.frags| > 1 {
      SplitKept(o, ro.reassembler, s, e.endpoint, n, i, s.sent[e.t], e.pkt, e.now, h);
    } else {
      SingleDelivered(ro.reassembler, s.receiver.partials, e.endpoint, g, s.sent[e.t], e.pkt, e.now, o);
    }
  }

  /** A duplicate leaves the partial packets as they are. */
  lemma DuplicateDropped(ro: LinkOptions, r: Receiver, endpoint: u64, pkt: LpPacket, now: nat, rto: nat)
    requires ro.reliable && RecentAfter(r.recent, pkt, now, rto).1
    ensures Receive(ro, r, endpoint, pkt, now, rto).0.partials == r.partials
    ensures pkt.sequence.Some? && pkt.sequence.value in r.recent.times
  {
    hide D.Purge;
  }

  /** One fragment that has arrived is kept after the arrival of transmission e.t. */
  lemma FragmentKept(o: LinkOptions, ro: LinkOptions, s: Link, e: Event, n: nat, m: nat, i: nat, h: nat)
    requires LinkInv(o, s) && o.reliable && ro.reliable && s.nSeq <= M64 && e.Deliver? && Enabled(o, ro, s, e)
    requires Tracked(ro, s, e.endpoint, n) && n < |s.accepted| && Able(ro, s.accepted[n])
    requires |s.sent| == |s.w.log| && m < |s.accepted| && i < |s.accepted[m].frags|
    requires s.w.log[e.t] == W.FragId(s.starts[m] + i, m)
    requires Emitted(o, s.accepted[m], i, s.sent[e.t]) && s.sent[e.t].txSequence.Some?
    requires h < |s.accepted[n].frags| && HasArrived(Step(o, ro, s, e), n, h) && !DeliveredOf(Step(o, ro, s, e), n)
    requires Step(o, ro, s, e).arrivals == s.arrivals + [e.t]
    ensures |s.accepted[n].frags| > 1
    ensures SlotFilled(Step(o, ro, s, e).receiver.partials, IdOf(e.endpoint, s.accepted[n]), h)
  {
    hide SenderInv;
    hide ReceiverInv;
    hide RecentArrived;
    hide Emitted;
    hide Receive;
    hide SlotFilled;
    hide HasArrived;
    hide DeliveredOf;
    hide IsDelivery;
    hide Key;
    hide W.Inv;
    hide Able;
    hide Arrives;
    var s' := Step(o, ro, s, e);
    var (p, r) := Receive(ro, s.receiver, e.endpoint, e.pkt, e.now, e.rto);
    DeliveredGrows(s, s', n, r);
    ArrivedAfter(s, s', e.t, n, h);
    if m != n {
      OtherArrival(o, ro, s, e, n, m, i, h);
    } else if RecentAfter(s.receiver.recent, e.pkt, e.now, e.rto).1 {
      DuplicateDropped(ro, s.receiver, e.endpoint, e.pkt, e.now, e.rto);
      ArrivesSequence(e.pkt, s.sent[e.t]);
      RecentOne(s, e.pkt.sequence.value);
      DuplicateArrived(o, s, e.t, n, i);
    } else {
      OwnArrival(o, ro, s, e, n, i, h);
    }
  }

  lemma ArrivesSequence(pkt: LpPacket, sent: LpPacket)
    requires Arrives(pkt, sent)
    ensures pkt.sequence == sent.sequence
  {
  }

  lemma RecentOne(s: Link, x: u64)
    requires RecentArrived(s) && x in s.receiver.recent.times
    ensures SequenceArrived(s, x)
  {
  }

  lemma DeliverTracked(o: LinkOptions, ro: LinkOptions, s: Link, e: Event, endpoint: u64, n: nat)
    requires LinkInv(o, s) && o.reliable && s.nSeq <= M64
    requires e.Deliver? && Enabled(o, ro, s, e) && e.endpoint == endpoint
    requires Tracked(ro, s, endpoint, n) && (n < |s.accepted| ==> Able(ro, s.accepted[n]))
    ensures Tracked(ro, Step(o, ro, s, e), endpoint, n)
  {
    hide SenderInv;
    hide ReceiverInv;
    hide RecentArrived;
    hide Emitted;
    hide SlotFilled;
    hide HasArrived;
    hide DeliveredOf;
    hide Key;
    hide W.Inv;
    hide Able;
    hide Arrives;
    hide R.Add;
    hide D.Receive;
    hide GoodMessage;
    var s' := Step(o, ro, s, e);
    var m, i := CarriedBy(o, s, e.t);
    if ro.reliable {
      ArrivesWhole(o, s.accepted[m], i, s.sent[e.t], e.pkt);
      RecentAfterArrival(s, s', e.t, e.pkt.sequence.value, e.now, e.rto);
      if n < |s.accepted| && !DeliveredOf(s', n) {
        forall h | 0 <= h < |s.accepted[n].frags| && HasArrived(s', n, h)
          ensures |s.accepted[n].frags| > 1 && SlotFilled(s'.receiver.partials, IdOf(endpoint, s.accepted[n]), h)
        {
          FragmentKept(o, ro, s, e, n, m, i, h);
        }
      }
    } else {
      RecentByOthers(s, s');
      if n < |s.accepted| {
        NothingArrived(s', n);
      }
    }
  }

  lemma NothingArrived(s: Link, n: nat)
    requires s.arrivals == [] && n < |s.starts|
    ensures forall i :: !HasArrived(s, n, i)
  {
  }

  // ---- runs ----

  /** All packets come from one endpoint, and no timer drops the partial packet k. */
  predicate Undropped(events: seq<Event>, endpoint: u64, k: R.Id) {
    forall i :: 0 <= i < |events| ==>
      && (events[i].Deliver? ==> events[i].endpoint == endpoint)
      && (events[i].DropPartial? ==> events[i].id != k)
  }

  lemma StepGrows(o: LinkOptions, ro: LinkOptions, s: Link, e: Event)
    requires Enabled(o, ro, s, e)
    ensures s.accepted <= Step(o, ro, s, e).accepted && s.nSeq <= Step(o, ro, s, e).nSeq
  {
    hide Receive;
    hide Admit;
    hide W.ProcessAck;
    hide W.Lose;
    hide AllOutgoing;
  }

  /** g is message n, from the moment it is accepted. */
  lemma StepTracked(o: LinkOptions, ro: LinkOptions, s: Link, e: Event, endpoint: u64, n: nat, g: Message)
    requires LinkInv(o, s) && o.reliable && Enabled(o, ro, s, e) && s.nSeq <= M64 && Able(ro, g)
    requires Tracked(ro, s, endpoint, n) && (n < |s.accepted| ==> s.accepted[n] == g)
    requires Undropped([e], endpoint, IdOf(endpoint, g))
    ensures Tracked(ro, Step(o, ro, s, e), endpoint, n)
  {
    hide LinkInv;
    hide Enabled;
    hide Step;
    hide Tracked;
    assert [e][0] == e;
    match e
    case Submit(_, _, _) => SubmitTracked(o, ro, s, e, endpoint, n);
    case Deliver(_, _, _, _, _) => DeliverTracked(o, ro, s, e, endpoint, n);
    case AckArrives(_) => ResendTracked(o, ro, s, e, endpoint, n);
    case RtoExpires(_) => ResendTracked(o, ro, s, e, endpoint, n);
    case _ => DropTracked(o, ro, s, e, endpoint, n);
  }

  lemma {:induction false} EveryRunTracked(o: LinkOptions, ro: LinkOptions, events: seq<Event>, s: Link, endpoint: u64,
                                           n: nat, g: Message)
    requires Reaches(o, ro, events, s) && o.reliable && s.nSeq <= M64 && Able(ro, g)
    requires n < |s.accepted| ==> s.accepted[n] == g
    requires Undropped(events, endpoint, IdOf(endpoint, g))
    ensures Tracked(ro, s, endpoint, n)
    decreases |events|
  {
    hide Enabled;
    hide Step;
    hide IdOf;
    hide Able;
    hide LinkInv;
    hide Tracked;
    if events == [] {
      InitialTracked(ro, endpoint, n);
    } else {
      var j := |events| - 1;
      var p :| Reaches(o, ro, events[..j], p) && Enabled(o, ro, p, events[j]) && s == Step(o, ro, p, events[j]);
      StepGrows(o, ro, p, events[j]);
      UndroppedParts(events, endpoint, IdOf(endpoint, g));
      hide Undropped;
      EveryRunTracked(o, ro, events[..j], p, endpoint, n, g);
      EveryLinkRun(o, ro, events[..j], p);
      StepTracked(o, ro, p, events[j], endpoint, n, g);
    }
  }

  lemma InitialTracked(ro: LinkOptions, endpoint: u64, n: nat)
    ensures Tracked(ro, INITIAL, endpoint, n)
  {
  }

  lemma UndroppedParts(events: seq<Event>, endpoint: u64, k: R.Id)
    requires events != [] && Undropped(events, endpoint, k)
    ensures Undropped(events[..|events| - 1], endpoint, k) && Undropped([events[|events| - 1]], endpoint, k)
  {
  }

  lemma {:induction false} AllFilled(frags: seq<LpPacket>)
    requires forall i :: 0 <= i < |frags| ==> frags[i].sequence.Some?
    ensures R.Filled(frags) == |frags|
  {
    if frags != [] {
      AllFilled(frags[..|frags| - 1]);
    }
  }

  /** A partial packet lacks some fragment. */
  lemma SomeSlotEmpty(o: LinkOptions, s: Link, k: R.Id, n: nat) returns (i: nat)
    requires Messages(o, s) && s.nSeq <= M64 && ReceiverInv(s)
    requires n < |s.accepted| && |s.accepted[n].frags| > 1 && k.message == Key(s.accepted[n].base)
    ensures i < |s.accepted[n].frags| && !SlotFilled(s.receiver.partials, k, i)
  {
    hide Key;
    hide Messages;
    hide SlotOf;
    hide R.Filled;
    hide R.Reassembled;
    hide R.SlotInv;
    TargetFrom(o, s, k, n);
    var m := s.receiver.partials;
    i := 0;
    if k in m {
      assert R.PartialInv(k, m[k]);
      if forall j :: 0 <= j < |m[k].fragments| ==> m[k].fragments[j].sequence.Some? {
        AllFilled(m[k].fragments);
      } else {
        i :| 0 <= i < |m[k].fragments| && m[k].fragments[i].sequence.None?;
      }
    }
  }

  /** Every fragment of a packet that counts as acknowledged has arrived. */
  lemma AllArrived(o: LinkOptions, s: Link, n: nat, i: nat)
    requires SenderInv(o, s) && AckInv(o, s) && o.reliable && |s.sent| <= M64
    requires n < |s.accepted| == |s.starts| && i < |s.accepted[n].frags|
    requires n in s.w.acknowledged || n in s.w.retransmitted
    ensures HasArrived(s, n, i)
  {
    hide Messages;
    hide AllFromSome;
    hide H.Fates;
    hide H.Logged;
    hide WR.RunInv;
    hide W.Inv;
    hide Emitted;
    hide Key;
    assert FirstSent(o, s, n, i);
    var t := s.starts[n] + i;
    H.CompleteIsAcked(o.window, s.w, s.sent, t);
    var h :| 0 <= h < |s.w.acks| && s.w.acks[h] < |s.w.log| && s.w.log[s.w.acks[h]] == s.w.log[t];
    var j :| 0 <= j < |s.arrivals| && s.arrivals[j] == s.w.acks[h];
  }

  /** Acknowledged means delivered. In every run with at most 2^64 Sequences and transmissions, over one
      endpoint: a network packet that counts in nAcknowledged or nRetransmitted has been handed up by the
      peer, octet for octet and with its headers, if the peer accepts that many fragments and its timer
      did not drop the partial packet. */
  lemma AcknowledgedIsDelivered(o: LinkOptions, ro: LinkOptions, events: seq<Event>, s: Link, endpoint: u64, n: nat)
    requires Reaches(o, ro, events, s) && o.reliable && s.nSeq <= M64 && |s.sent| <= M64
    requires n in s.w.acknowledged || n in s.w.retransmitted
    ensures n < |s.accepted|
    ensures Able(ro, s.accepted[n]) && Undropped(events, endpoint, IdOf(endpoint, s.accepted[n])) ==> DeliveredOf(s, n)
  {
    hide SenderInv;
    hide ReceiverInv;
    hide RecentArrived;
    hide SlotFilled;
    hide HasArrived;
    hide DeliveredOf;
    hide Able;
    hide Undropped;
    hide Key;
    EveryLinkRun(o, ro, events, s);
    AckedKnown(o, s, n);
    var g := s.accepted[n];
    if Able(ro, g) && Undropped(events, endpoint, IdOf(endpoint, g)) {
      EveryRunTracked(o, ro, events, s, endpoint, n, g);
      MessageKnown(o, s, n);
      var i := 0;
      if |g.frags| > 1 {
        i := SomeSlotEmpty(o, s, IdOf(endpoint, g), n);
      }
      AllArrived(o, s, n, i);
    }
  }

  lemma MessageKnown(o: LinkOptions, s: Link, n: nat)
    requires SenderInv(o, s) && n < |s.accepted|
    ensures Messages(o, s) && s.accepted[n].frags != [] && |s.starts| == |s.accepted|
  {
    assert GoodMessage(s.accepted[n]);
  }

  /** In every run, whatever can arrive under the identifier of a split message is one of its fragments,
      so that reassembly is undisturbed. */
  lemma OnlyOwnFragments(o: LinkOptions, ro: LinkOptions, events: seq<Event>, s: Link, endpoint: u64, n: nat, t: nat,
                         pkt: LpPacket, now: nat)
    requires Reaches(o, ro, events, s) && s.nSeq <= M64
    requires n < |s.accepted| && |s.accepted[n].frags| > 1 && t < |s.sent| && Arrives(pkt, s.sent[t])
    ensures IsMessage(s.accepted[n])
    ensures Undisturbed(endpoint, s.accepted[n], [R.Arrival(endpoint, pkt, now)])
  {
    hide WindowInv;
    hide ReceiverInv;
    hide AckInv;
    hide Key;
    EveryLinkRun(o, ro, events, s);
    SentKnown(o, s, t);
    var g := s.accepted[n];
    assert GoodMessage(g);
    var m, i :| 0 <= m < |s.accepted| && 0 <= i < |s.accepted[m].frags| && Emitted(o, s.accepted[m], i, s.sent[t]);
    assert GoodMessage(s.accepted[m]);
    OwnFragment(o, s, n, m, i, s.sent[t], pkt);
  }

  lemma OwnFragment(o: LinkOptions, s: Link, n: nat, m: nat, i: nat, sent: LpPacket, pkt: LpPacket)
    requires Messages(o, s) && s.nSeq <= M64 && n < |s.accepted| && |s.accepted[n].frags| > 1
    requires m < |s.accepted| && i < |s.accepted[m].frags| && GoodMessage(s.accepted[m])
    requires Emitted(o, s.accepted[m], i, sent) && Arrives(pkt, sent)
    ensures pkt.sequence.Some? && R.CountOf(pkt) != 1 && R.MessageOf(pkt) == Key(s.accepted[n].base) ==>
              IsFragment(s.accepted[n], pkt, R.IndexOf(pkt))
  {
    hide Key;
    hide IsFragment;
    if |s.accepted[m].frags| > 1 {
      ArrivesAsFragment(o, s.accepted[m], i, sent, pkt);
      if R.MessageOf(pkt) == Key(s.accepted[n].base) {
        SameBase(o, s, m, n);
      }
    } else {
      SingleCount(o, s.accepted[m], i, sent, pkt);
    }
  }

  lemma SingleCount(o: LinkOptions, g: Message, i: nat, sent: LpPacket, pkt: LpPacket)
    requires GoodMessage(g) && |g.frags| == 1 && Emitted(o, g, i, sent) && Arrives(pkt, sent)
    ensures R.CountOf(pkt) == 1
  {
    hide Key;
  }
}
