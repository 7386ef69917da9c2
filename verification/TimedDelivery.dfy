/** Acknowledged means delivered, when the fragments of a packet arrive within the reassembly timeout. */
module TimedDelivery {
  import opened Basics
  import opened LpPackets
  import opened Fragmenter
  import opened LinkSpec
  import opened ReassemblyRuns
  import opened LinkRun
  import opened Delivery
  import D = Duplicates
  import R = Reassembler
  import W = TxWindow
  import WR = WindowRuns
  import H = WindowHistory

  // ---- traces and time ----

  /** The states that a run goes through. */
  ghost predicate IsTrace(o: LinkOptions, ro: LinkOptions, events: seq<Event>, states: seq<Link>) {
    && |states| == |events| + 1 && states[0] == LinkRun.INITIAL
    && forall j :: 0 <= j < |events| ==>
         Enabled(o, ro, states[j], events[j]) && states[j + 1] == Step(o, ro, states[j], events[j])
  }

  function TimeOf(e: Event): Option<nat> {
    if e.Deliver? || e.DropPartial? then Some(e.now) else None
  }

  /** Time does not run backwards at the receiver. */
  predicate InTimeOrder(events: seq<Event>) {
    forall i, j :: 0 <= i < j < |events| && TimeOf(events[i]).Some? && TimeOf(events[j]).Some? ==>
      TimeOf(events[i]).value <= TimeOf(events[j]).value
  }

  /** No drop timer fires early. */
  predicate TimersDue(events: seq<Event>, states: seq<Link>)
    requires |states| == |events| + 1
  {
    forall j :: 0 <= j < |events| && events[j].DropPartial? ==> IsDue(states[j].receiver.partials, events[j])
  }

  predicate IsDue(m: R.Partials, e: Event)
    requires e.DropPartial?
  {
    e.id in m && m[e.id].dropTimer.Some? ==> m[e.id].dropTimer.value <= e.now
  }

  predicate OneEndpoint(events: seq<Event>, endpoint: u64) {
    forall j :: 0 <= j < |events| && events[j].Deliver? ==> events[j].endpoint == endpoint
  }

  /** The event brings a fragment of message n that has not arrived before. */
  predicate IsFirst(s: Link, e: Event, n: nat) {
    && e.Deliver? && n < |s.starts| && e.t < |s.w.log| && s.w.log[e.t].net == n
    && s.w.log[e.t].first >= s.starts[n] && !HasArrived(s, n, s.w.log[e.t].first - s.starts[n])
  }

  function Later(s: Link, e: Event, n: nat, last: Option<nat>): Option<nat> {
    if IsFirst(s, e, n) then Some(e.now) else last
  }

  /** When a fragment of message n last arrived for the first time, before event j. */
  function LastFirst(events: seq<Event>, states: seq<Link>, n: nat, j: nat): Option<nat>
    requires |states| == |events| + 1 && j <= |events|
  {
    if j == 0 then None else Later(states[j - 1], events[j - 1], n, LastFirst(events, states, n, j - 1))
  }

  /** No gap between first arrivals of the fragments of message n reaches the timeout. */
  predicate Timely(ro: LinkOptions, events: seq<Event>, states: seq<Link>, n: nat)
    requires |states| == |events| + 1
  {
    forall j :: 0 <= j < |events| && IsFirst(states[j], events[j], n) && LastFirst(events, states, n, j).Some? ==>
      events[j].now < LastFirst(events, states, n, j).value + ro.reassembler.reassemblyTimeout
  }

  // ---- what is kept of one message ----

  /** The slots are exactly the fragments that arrived, and the timer runs from the last of them. */
  ghost predicate Exact(ro: LinkOptions, s: Link, endpoint: u64, n: nat, last: Option<nat>)
    requires n < |s.accepted| == |s.starts|
  {
    var k, m := IdOf(endpoint, s.accepted[n]), s.receiver.partials;
    && (forall i :: 0 <= i < |s.accepted[n].frags| ==> (HasArrived(s, n, i) <==> SlotFilled(m, k, i)))
    && (last.None? ==> k !in m)
    && (last.Some? ==> k in m && m[k].dropTimer == Some(last.value + ro.reassembler.reassemblyTimeout))
  }

  ghost predicate TimedInv(ro: LinkOptions, s: Link, endpoint: u64, n: nat, last: Option<nat>) {
    && |s.starts| == |s.accepted| && RecentArrived(s)
    && (if n < |s.accepted| then DeliveredOf(s, n) || Exact(ro, s, endpoint, n, last) else last.None?)
  }

  /** A step that brings nothing to the receiver changes no arrival. */
  lemma ArrivedByOthers(s: Link, s': Link, n: nat, i: nat)
    requires n < |s.starts| && s.starts <= s'.starts && s.w.log <= s'.w.log && s'.arrivals == s.arrivals
    requires forall j :: 0 <= j < |s.arrivals| ==> s.arrivals[j] < |s.w.log|
    ensures HasArrived(s', n, i) <==> HasArrived(s, n, i)
  {
    assert s'.starts[n] == s.starts[n];
    if HasArrived(s, n, i) {
      var j :| 0 <= j < |s.arrivals| && s.arrivals[j] < |s.w.log|
               && s.w.log[s.arrivals[j]] == W.FragId(s.starts[n] + i, n);
      assert s'.w.log[s'.arrivals[j]] == s.w.log[s.arrivals[j]];
    }
    if HasArrived(s', n, i) {
      var j :| 0 <= j < |s'.arrivals| && s'.arrivals[j] < |s'.w.log|
               && s'.w.log[s'.arrivals[j]] == W.FragId(s'.starts[n] + i, n);
      assert s.arrivals[j] < |s.w.log|;
    }
  }

  lemma DeliveredByOthers(s: Link, s': Link, n: nat)
    requires n < |s.accepted| && s.accepted <= s'.accepted && s'.results == s.results
    ensures DeliveredOf(s, n) ==> DeliveredOf(s', n)
  {
    hide IsDelivery;
    assert s'.accepted[n] == s.accepted[n];
    if DeliveredOf(s, n) {
      var r :| 0 <= r < |s.results| && s.results[r].Delivered?
               && IsDelivery(s.accepted[n], s.results[r].netPkt, s.results[r].first);
      assert s'.results[r] == s.results[r];
    }
  }

  lemma ExactByOthers(ro: LinkOptions, s: Link, s': Link, endpoint: u64, n: nat, last: Option<nat>)
    requires |s.starts| == |s.accepted| && |s'.starts| == |s'.accepted| && n < |s.accepted|
    requires s.accepted <= s'.accepted && s.starts <= s'.starts && s.w.log <= s'.w.log
    requires s'.arrivals == s.arrivals && s'.results == s.results
    requires forall j :: 0 <= j < |s.arrivals| ==> s.arrivals[j] < |s.w.log|
    requires var k, m, m' := IdOf(endpoint, s.accepted[n]), s.receiver.partials, s'.receiver.partials;
             (k in m' <==> k in m) && (k in m ==> m'[k] == m[k])
    requires DeliveredOf(s, n) || Exact(ro, s, endpoint, n, last)
    ensures DeliveredOf(s', n) || Exact(ro, s', endpoint, n, last)
  {
    hide HasArrived;
    hide DeliveredOf;
    hide Key;
    DeliveredByOthers(s, s', n);
    assert s'.accepted[n] == s.accepted[n];
    forall i
      ensures HasArrived(s', n, i) <==> HasArrived(s, n, i)
    {
      ArrivedByOthers(s, s', n, i);
    }
  }

  /** A message that is just accepted has no partial packet yet. */
  lemma NoPartialYet(o: LinkOptions, s: Link, s': Link, endpoint: u64)
    requires PartialsFrom(s.accepted, s.receiver.partials) && o.reliable
    requires Messages(o, s') && s'.nSeq <= M64 && |s'.accepted| == |s.accepted| + 1 && s.accepted <= s'.accepted
    ensures IdOf(endpoint, s'.accepted[|s.accepted|]) !in s.receiver.partials
  {
    hide Messages;
    hide SlotOf;
    hide Key;
    var n := |s.accepted|;
    var k := IdOf(endpoint, s'.accepted[n]);
    if k in s.receiver.partials {
      var m :| 0 <= m < |s.accepted| && PartialFrom(s.accepted[m], k, s.receiver.partials[k]);
      assert s'.accepted[m] == s.accepted[m];
      SameBase(o, s', m, n);
    }
  }

  lemma NothingOfNew(o: LinkOptions, s: Link, s': Link, i: nat)
    requires SenderInv(o, s) && o.reliable && AckInv(o, s)
    requires |s'.starts| == |s.accepted| + 1 && s'.arrivals == s.arrivals && s.w.log <= s'.w.log
    ensures !HasArrived(s', |s.accepted|, i)
  {
    hide Messages;
    hide AllFromSome;
    hide WR.RunInv;
    hide H.History;
    hide FirstSent;
    var n := |s.accepted|;
    forall j | 0 <= j < |s'.arrivals| && s'.arrivals[j] < |s'.w.log|
      ensures s'.w.log[s'.arrivals[j]] != W.FragId(s'.starts[n] + i, n)
    {
      assert KnownFragment(s, s.w.log[s.arrivals[j]]);
    }
  }

  lemma SubmitTimed(o: LinkOptions, ro: LinkOptions, s: Link, e: Event, endpoint: u64, n: nat, last: Option<nat>)
    requires LinkInv(o, s) && o.reliable && e.Submit? && Enabled(o, ro, s, e)
    requires LinkInv(o, Step(o, ro, s, e)) && Step(o, ro, s, e).nSeq <= M64 && s.nSeq <= M64
    requires TimedInv(ro, s, endpoint, n, last)
    ensures TimedInv(ro, Step(o, ro, s, e), endpoint, n, last)
  {
    hide SenderInv;
    hide ReceiverInv;
    hide W.Inv;
    hide W.HandleOutgoing;
    hide IsSplit;
    hide IsNetPacket;
    hide AllOutgoing;
    hide SequencedAll;
    hide HasArrived;
    hide DeliveredOf;
    hide RecentArrived;
    hide Key;
    var s' := Step(o, ro, s, e);
    OutgoingLog(o, ro, s, e);
    ArrivalsLogged(o, s);
    RecentByOthers(s, s');
    if n < |s.accepted| {
      ExactByOthers(ro, s, s', endpoint, n, last);
    } else if n == |s.accepted| {
      ReceiverPartials(s);
      MessagesOf(o, s');
      NoPartialYet(o, s, s', endpoint);
      forall i
        ensures !HasArrived(s', n, i)
      {
        NothingOfNew(o, s, s', i);
      }
    }
  }

  lemma ReceiverPartials(s: Link)
    requires ReceiverInv(s)
    ensures PartialsFrom(s.accepted, s.receiver.partials)
  {
  }

  lemma MessagesOf(o: LinkOptions, s: Link)
    requires SenderInv(o, s)
    ensures Messages(o, s)
  {
  }

  lemma ResendTimed(o: LinkOptions, ro: LinkOptions, s: Link, e: Event, endpoint: u64, n: nat, last: Option<nat>)
    requires LinkInv(o, s) && o.reliable && (e.AckArrives? || e.RtoExpires?) && Enabled(o, ro, s, e)
    requires TimedInv(ro, s, endpoint, n, last)
    ensures TimedInv(ro, Step(o, ro, s, e), endpoint, n, last)
  {
    hide ReceiverInv;
    hide Messages;
    hide AllFromSome;
    hide Origins;
    hide WR.RunInv;
    hide H.History;
    hide W.ProcessAck;
    hide W.Lose;
    hide HasArrived;
    hide DeliveredOf;
    hide RecentArrived;
    hide Exact;
    hide Key;
    if e.AckArrives? {
      H.AckHistory(o.window, s.w, s.sent[s.arrivals[e.j]].txSequence.value, s.sent);
    } else {
      H.LoseHistory(o.window, s.w, W.FindKey(s.w.live, e.k).value, s.sent);
    }
    var s' := Step(o, ro, s, e);
    ArrivalsLogged(o, s);
    RecentByOthers(s, s');
    if n < |s.accepted| {
      ExactByOthers(ro, s, s', endpoint, n, last);
    }
  }

  lemma DropTimed(o: LinkOptions, ro: LinkOptions, s: Link, e: Event, endpoint: u64, n: nat, last: Option<nat>)
    requires LinkInv(o, s) && o.reliable && (e.DropPartial? || e.AttachAcks?) && Enabled(o, ro, s, e)
    requires TimedInv(ro, s, endpoint, n, last)
    requires e.DropPartial? && n < |s.accepted| && e.id == IdOf(endpoint, s.accepted[n]) ==>
               DeliveredOf(s, n) || last.None?
    ensures TimedInv(ro, Step(o, ro, s, e), endpoint, n, last)
  {
    hide SenderInv;
    hide ReceiverInv;
    hide W.Inv;
    hide HasArrived;
    hide DeliveredOf;
    hide RecentArrived;
    hide Key;
    var s' := Step(o, ro, s, e);
    ArrivalsLogged(o, s);
    RecentByOthers(s, s');
    if n < |s.accepted| {
      DeliveredByOthers(s, s', n);
      if !DeliveredOf(s, n) {
        ExactByOthers(ro, s, s', endpoint, n, last);
      }
    }
  }

  // ---- an arrival ----

  lemma ArrivedExactly(s: Link, s': Link, t: nat, n: nat, h: nat)
    requires t < |s.w.log| && n < |s.starts| && s'.w == s.w && s'.starts == s.starts && s'.arrivals == s.arrivals + [t]
    ensures HasArrived(s', n, h) <==> HasArrived(s, n, h) || s.w.log[t] == W.FragId(s.starts[n] + h, n)
  {
    if HasArrived(s', n, h) {
      ArrivedAfter(s, s', t, n, h);
    }
    if HasArrived(s, n, h) {
      var j :| 0 <= j < |s.arrivals| && s.arrivals[j] < |s.w.log|
               && s.w.log[s.arrivals[j]] == W.FragId(s.starts[n] + h, n);
      assert s'.arrivals[j] == s.arrivals[j];
    }
    assert s'.arrivals[|s.arrivals|] == t;
  }

  /** Adding a fragment leaves every other partial packet as it is. */
  lemma AddUnchanged(o: R.Options, m: R.Partials, endpoint: u64, pkt: LpPacket, now: nat, k: R.Id)
    requires pkt.sequence.Some? ==> k != R.Id(endpoint, R.MessageOf(pkt))
    ensures var m' := R.Add(o, m, endpoint, pkt, now).0; (k in m' <==> k in m) && (k in m ==> m'[k] == m[k])
  {
    hide R.Reassembled;
  }

  /** An arrival of another message leaves the partial packet of message n as it is. */
  lemma OtherUnchanged(o: LinkOptions, ro: LinkOptions, s: Link, e: Event, n: nat, m: nat, i: nat)
    requires SenderInv(o, s) && o.reliable && s.nSeq <= M64 && e.Deliver? && Enabled(o, ro, s, e)
    requires n < |s.accepted| && m < |s.accepted| && m != n
    requires i < |s.accepted[m].frags| && Emitted(o, s.accepted[m], i, s.sent[e.t]) && s.sent[e.t].txSequence.Some?
    ensures var k, p, p' := IdOf(e.endpoint, s.accepted[n]), s.receiver.partials, Step(o, ro, s, e).receiver.partials;
            (k in p' <==> k in p) && (k in p ==> p'[k] == p[k])
  {
    hide WindowInv;
    hide AllFromSome;
    hide Emitted;
    hide Arrives;
    hide R.Add;
    hide Key;
    hide W.Inv;
    var g := s.accepted[m];
    assert GoodMessage(g);
    hide GoodMessage;
    if |g.frags| > 1 {
      ArrivesAsFragment(o, g, i, s.sent[e.t], e.pkt);
      if Key(g.base) == Key(s.accepted[n].base) {
        SameBase(o, s, m, n);
      }
      AddUnchanged(ro.reassembler, s.receiver.partials, e.endpoint, e.pkt, e.now, IdOf(e.endpoint, s.accepted[n]));
    } else {
      SingleGood(ro.reassembler, s.receiver.partials, e.endpoint, g, s.sent[e.t], e.pkt, e.now, o);
    }
  }

  /** A fragment whose slot is filled is dropped; any other one is stored with a new timer, or completes
      its packet. */
  lemma AddExactly(o: R.Options, m: R.Partials, endpoint: u64, pkt: LpPacket, now: nat, h: nat)
    requires pkt.sequence.Some? && R.IndexOf(pkt) < R.CountOf(pkt) <= o.nMaxFragments && R.CountOf(pkt) > 1
    requires |R.Target(m, R.Id(endpoint, R.MessageOf(pkt)), R.CountOf(pkt)).fragments| == R.CountOf(pkt)
    ensures var (m', r) := R.Add(o, m, endpoint, pkt, now);
            var k := R.Id(endpoint, R.MessageOf(pkt));
            && (SlotFilled(m, k, R.IndexOf(pkt)) ==> m' == m)
            && (!SlotFilled(m, k, R.IndexOf(pkt)) && !r.Delivered? && !r.Malformed? ==>
                  && k in m' && m'[k].dropTimer == Some(now + o.reassemblyTimeout)
                  && (h < R.CountOf(pkt) ==> (SlotFilled(m', k, h) <==> h == R.IndexOf(pkt) || SlotFilled(m, k, h))))
  {
    hide R.Reassembled;
  }

  /** The same for a fragment of a split message. */
  lemma SplitExactly(o: LinkOptions, ro: R.Options, s: Link, endpoint: u64, n: nat, i: nat, sent: LpPacket,
                     pkt: LpPacket, now: nat, h: nat)
    requires Messages(o, s) && s.nSeq <= M64 && ReceiverInv(s) && FromSome(o, s.accepted, sent)
    requires n < |s.accepted| && 1 < |s.accepted[n].frags| <= ro.nMaxFragments
    requires Emitted(o, s.accepted[n], i, sent) && Arrives(pkt, sent)
    ensures var (m', r) := R.Add(ro, s.receiver.partials, endpoint, pkt, now);
            var k := IdOf(endpoint, s.accepted[n]);
            && (SlotFilled(s.receiver.partials, k, i) ==> m' == s.receiver.partials)
            && (!SlotFilled(s.receiver.partials, k, i) && !r.Delivered? ==>
                  && k in m' && m'[k].dropTimer == Some(now + ro.reassemblyTimeout)
                  && (h < |s.accepted[n].frags| ==>
                        (SlotFilled(m', k, h) <==> h == i || SlotFilled(s.receiver.partials, k, h))))
  {
    hide Key;
    hide Emitted;
    hide Arrives;
    hide R.Inv;
    hide PartialFrom;
    hide R.Add;
    hide SlotOf;
    hide IsDelivery;
    hide SlotFilled;
    hide FromSome;
    var m, g := s.receiver.partials, s.accepted[n];
    ArrivesAsFragment(o, g, i, sent, pkt);
    var k := R.Id(endpoint, R.MessageOf(pkt));
    TargetFrom(o, s, k, n);
    TargetSize(g, k, R.Target(m, k, |g.frags|));
    AddGood(o, ro, s, endpoint, sent, pkt, now);
    AddExactly(ro, m, endpoint, pkt, now, h);
  }

  /** Exact is kept by an arrival of the message itself, unless it delivers the message. */
  lemma OwnTimed(o: LinkOptions, ro: LinkOptions, s: Link, e: Event, n: nat, i: nat, last: Option<nat>)
    requires LinkInv(o, s) && o.reliable && ro.reliable && s.nSeq <= M64 && e.Deliver? && Enabled(o, ro, s, e)
    requires TimedInv(ro, s, e.endpoint, n, last) && n < |s.accepted| && Able(ro, s.accepted[n])
    requires |s.sent| == |s.w.log| && i < |s.accepted[n].frags| && s.w.log[e.t] == W.FragId(s.starts[n] + i, n)
    requires Emitted(o, s.accepted[n], i, s.sent[e.t]) && s.sent[e.t].txSequence.Some?
    requires Step(o, ro, s, e).arrivals == s.arrivals + [e.t] && !DeliveredOf(Step(o, ro, s, e), n)
    ensures Exact(ro, Step(o, ro, s, e), e.endpoint, n, Later(s, e, n, last))
  {
    hide SenderInv;
    hide ReceiverInv;
    hide RecentArrived;
    hide Emitted;
    hide Receive;
    hide SlotFilled;
    hide HasArrived;
    hide DeliveredOf;
    hide IsDelivery;
    hide Key;
    hide W.Inv;
    hide Able;
    hide Arrives;
    var s' := Step(o, ro, s, e);
    var (p, r) := Receive(ro, s.receiver, e.endpoint, e.pkt, e.now, e.rto);
    DeliveredGrows(s, s', n, r);
    forall h
      ensures HasArrived(s', n, h) <==> HasArrived(s, n, h) || h == i
    {
      ArrivedExactly(s, s', e.t, n, h);
    }
    if RecentAfter(s.receiver.recent, e.pkt, e.now, e.rto).1 {
      DuplicateDropped(ro, s.receiver, e.endpoint, e.pkt, e.now, e.rto);
      ArrivesSequence(e.pkt, s.sent[e.t]);
      RecentOne(s, e.pkt.sequence.value);
      DuplicateArrived(o, s, e.t, n, i);
    } else {
      OwnArrival(o, ro, s, e, n, i, i);
      NotDuplicate(o, ro, s, e, n, i);
      forall h | 0 <= h < |s.accepted[n].frags|
        ensures var k := IdOf(e.endpoint, s.accepted[n]);
                && (SlotFilled(s.receiver.partials, k, i) ==> p.partials == s.receiver.partials)
                && (!SlotFilled(s.receiver.partials, k, i) ==>
                      && k in p.partials
                      && p.partials[k].dropTimer == Some(e.now + ro.reassembler.reassemblyTimeout)
                      && (SlotFilled(p.partials, k, h) <==> h == i || SlotFilled(s.receiver.partials, k, h)))
      {
        OwnExactly(o, ro, s, e, n, i, h);
      }
    }
  }

  lemma NotDuplicate(o: LinkOptions, ro: LinkOptions, s: Link, e: Event, n: nat, i: nat)
    requires SenderInv(o, s) && o.reliable && e.Deliver? && Enabled(o, ro, s, e) && n < |s.accepted|
    requires Able(ro, s.accepted[n]) && i < |s.accepted[n].frags|
    requires Emitted(o, s.accepted[n], i, s.sent[e.t]) && s.sent[e.t].txSequence.Some?
    requires !RecentAfter(s.receiver.recent, e.pkt, e.now, e.rto).1
    ensures var (p, r) := Receive(ro, s.receiver, e.endpoint, e.pkt, e.now, e.rto);
            (p.partials, r) == R.Add(ro.reassembler, s.receiver.partials, e.endpoint, e.pkt, e.now)
  {
    hide WindowInv;
    hide AllFromSome;
    hide Emitted;
    hide Arrives;
    hide R.Add;
    hide W.Inv;
    hide RecentAfter;
    assert GoodMessage(s.accepted[n]);
    hide GoodMessage;
    ArrivesWhole(o, s.accepted[n], i, s.sent[e.t], e.pkt);
  }

  lemma OwnExactly(o: LinkOptions, ro: LinkOptions, s: Link, e: Event, n: nat, i: nat, h: nat)
    requires LinkInv(o, s) && o.reliable && s.nSeq <= M64 && e.Deliver? && Enabled(o, ro, s, e)
    requires n < |s.accepted| && Able(ro, s.accepted[n]) && |s.accepted[n].frags| > 1
    requires i < |s.accepted[n].frags| && Emitted(o, s.accepted[n], i, s.sent[e.t]) && s.sent[e.t].txSequence.Some?
    requires !RecentAfter(s.receiver.recent, e.pkt, e.now, e.rto).1 && h < |s.accepted[n].frags|
    ensures var (p, r) := Receive(ro, s.receiver, e.endpoint, e.pkt, e.now, e.rto);
            var k := IdOf(e.endpoint, s.accepted[n]);
            && (SlotFilled(s.receiver.partials, k, i) ==> p.partials == s.receiver.partials)
            && (!SlotFilled(s.receiver.partials, k, i) && !r.Delivered? ==>
                  && k in p.partials
                  && p.partials[k].dropTimer == Some(e.now + ro.reassembler.reassemblyTimeout)
                  && (SlotFilled(p.partials, k, h) <==> h == i || SlotFilled(s.receiver.partials, k, h)))
  {
    hide SenderInv;
    hide ReceiverInv;
    hide AckInv;
    hide Emitted;
    hide Arrives;
    hide R.Add;
    hide Receive;
    hide W.Inv;
    hide RecentAfter;
    hide SlotFilled;
    hide Key;
    hide FromSome;
    NotDuplicate(o, ro, s, e, n, i);
    SentKnown(o, s, e.t);
    SplitExactly(o, ro.reassembler, s, e.endpoint, n, i, s.sent[e.t], e.pkt, e.now, h);
  }

  lemma DeliverTimed(o: LinkOptions, ro: LinkOptions, s: Link, e: Event, endpoint: u64, n: nat, last: Option<nat>)
    requires LinkInv(o, s) && o.reliable && ro.reliable && s.nSeq <= M64
    requires e.Deliver? && Enabled(o, ro, s, e) && e.endpoint == endpoint
    requires TimedInv(ro, s, endpoint, n, last) && (n < |s.accepted| ==> Able(ro, s.accepted[n]))
    ensures TimedInv(ro, Step(o, ro, s, e), endpoint, n, Later(s, e, n, last))
  {
    hide SenderInv;
    hide ReceiverInv;
    hide RecentArrived;
    hide Emitted;
    hide SlotFilled;
    hide HasArrived;
    hide DeliveredOf;
    hide Key;
    hide W.Inv;
    hide Able;
    hide Arrives;
    hide R.Add;
    hide D.Receive;
    hide GoodMessage;
    var s' := Step(o, ro, s, e);
    var m, i := CarriedBy(o, s, e.t);
    ArrivesWhole(o, s.accepted[m], i, s.sent[e.t], e.pkt);
    RecentAfterArrival(s, s', e.t, e.pkt.sequence.value, e.now, e.rto);
    if n < |s.accepted| {
      DeliveredGrows(s, s', n, Receive(ro, s.receiver, e.endpoint, e.pkt, e.now, e.rto).1);
      if !DeliveredOf(s', n) {
        if m == n {
          OwnTimed(o, ro, s, e, n, i, last);
        } else {
          OtherUnchanged(o, ro, s, e, n, m, i);
          OtherTimed(ro, s, s', e.t, endpoint, n, last);
        }
      }
    }
  }

  lemma OtherTimed(ro: LinkOptions, s: Link, s': Link, t: nat, endpoint: u64, n: nat, last: Option<nat>)
    requires n < |s.accepted| == |s.starts| && t < |s.w.log| && s.w.log[t].net != n && Exact(ro, s, endpoint, n, last)
    requires s'.accepted == s.accepted && s'.w == s.w && s'.starts == s.starts && s'.arrivals == s.arrivals + [t]
    requires var k, p, p' := IdOf(endpoint, s.accepted[n]), s.receiver.partials, s'.receiver.partials;
             (k in p' <==> k in p) && (k in p ==> p'[k] == p[k])
    ensures Exact(ro, s', endpoint, n, last)
  {
    hide HasArrived;
    hide Key;
    forall h
      ensures HasArrived(s', n, h) <==> HasArrived(s, n, h)
    {
      ArrivedExactly(s, s', t, n, h);
    }
  }

  // ---- traces ----

  lemma {:induction false} TraceReaches(o: LinkOptions, ro: LinkOptions, events: seq<Event>, states: seq<Link>, j: nat)
    requires IsTrace(o, ro, events, states) && j <= |events|
    ensures Reaches(o, ro, events[..j], states[j]) && LinkInv(o, states[j])
  {
    hide Enabled;
    hide Step;
    hide LinkInv;
    if j > 0 {
      TraceReaches(o, ro, events, states, j - 1);
      assert events[..j][..j - 1] == events[..j - 1] && events[..j][j - 1] == events[j - 1];
    }
    EveryLinkRun(o, ro, events[..j], states[j]);
  }

  /** Messages are never forgotten, and counters never decrease. */
  lemma {:induction false} TraceGrows(o: LinkOptions, ro: LinkOptions, events: seq<Event>, states: seq<Link>, i: nat,
                                      j: nat)
    requires IsTrace(o, ro, events, states) && i <= j <= |events|
    ensures states[i].accepted <= states[j].accepted && states[i].nSeq <= states[j].nSeq
    decreases j - i
  {
    hide Enabled;
    hide Step;
    if i < j {
      StepGrows(o, ro, states[i], events[i]);
      TraceGrows(o, ro, events, states, i + 1, j);
    }
  }

  /** What has not arrived before a step has arrived after it only if the step is its first arrival. */
  lemma ArrivesFirst(o: LinkOptions, ro: LinkOptions, s: Link, e: Event, n: nat, i: nat)
    requires LinkInv(o, s) && o.reliable && Enabled(o, ro, s, e) && n < |s.starts| == |s.accepted|
    requires !HasArrived(s, n, i) && !IsFirst(s, e, n)
    ensures n < |Step(o, ro, s, e).starts| && !HasArrived(Step(o, ro, s, e), n, i)
  {
    hide SenderInv;
    hide ReceiverInv;
    hide W.Inv;
    hide W.HandleOutgoing;
    hide W.ProcessAck;
    hide W.Lose;
    hide HasArrived;
    hide Receive;
    hide AllOutgoing;
    hide SequencedAll;
    hide IsSplit;
    hide IsNetPacket;
    hide Arrives;
    var s' := Step(o, ro, s, e);
    ArrivalsLogged(o, s);
    if e.Deliver? {
      if s'.arrivals != s.arrivals {
        ArrivedExactly(s, s', e.t, n, i);
      } else {
        ArrivedByOthers(s, s', n, i);
      }
    } else {
      LogGrows(o, ro, s, e);
      ArrivedByOthers(s, s', n, i);
    }
  }

  lemma LogGrows(o: LinkOptions, ro: LinkOptions, s: Link, e: Event)
    requires LinkInv(o, s) && o.reliable && Enabled(o, ro, s, e)
    ensures s.w.log <= Step(o, ro, s, e).w.log
  {
    hide ReceiverInv;
    hide AckInv;
    hide Messages;
    hide AllFromSome;
    hide Origins;
    hide WR.RunInv;
    hide H.History;
    hide W.HandleOutgoing;
    hide W.ProcessAck;
    hide W.Lose;
    hide Receive;
    hide AllOutgoing;
    match e
    case Submit(_, _, _) => OutgoingLog(o, ro, s, e);
    case AckArrives(j) => H.AckHistory(o.window, s.w, s.sent[s.arrivals[j]].txSequence.value, s.sent);
    case RtoExpires(k) => H.LoseHistory(o.window, s.w, W.FindKey(s.w.live, k).value, s.sent);
    case _ =>
  }

  /** If a fragment is still missing at j and has arrived at the end, there is a next first arrival, and
      none comes before it. */
  lemma {:induction false} NextFirst(o: LinkOptions, ro: LinkOptions, events: seq<Event>, states: seq<Link>, n: nat,
                                     i: nat, j: nat)
    returns (f: nat)
    requires IsTrace(o, ro, events, states) && o.reliable && j <= |events|
    requires n < |states[j].starts| && !HasArrived(states[j], n, i)
    requires n < |states[|events|].starts| && HasArrived(states[|events|], n, i)
    ensures j <= f < |events| && IsFirst(states[f], events[f], n)
    ensures LastFirst(events, states, n, f) == LastFirst(events, states, n, j)
    decreases |events| - j
  {
    hide Enabled;
    hide Step;
    hide HasArrived;
    hide IsFirst;
    hide LinkInv;
    if j < |events| {
      if IsFirst(states[j], events[j], n) {
        f := j;
      } else {
        TraceReaches(o, ro, events, states, j);
        StartsKnown(o, states[j]);
        ArrivesFirst(o, ro, states[j], events[j], n, i);
        assert LastFirst(events, states, n, j + 1) == LastFirst(events, states, n, j);
        f := NextFirst(o, ro, events, states, n, i, j + 1);
      }
    }
  }

  lemma StartsKnown(o: LinkOptions, s: Link)
    requires LinkInv(o, s)
    ensures |s.starts| == |s.accepted| && SenderInv(o, s) && AckInv(o, s) && (s.nSeq <= M64 ==> ReceiverInv(s))
  {
  }

  /** A message without a full set of fragments lacks one that has not arrived. */
  lemma SomeMissing(o: LinkOptions, ro: LinkOptions, s: Link, endpoint: u64, n: nat, last: Option<nat>) returns (i: nat)
    requires LinkInv(o, s) && o.reliable && s.nSeq <= M64 && n < |s.accepted| == |s.starts|
    requires Exact(ro, s, endpoint, n, last)
    ensures i < |s.accepted[n].frags| && !HasArrived(s, n, i)
  {
    hide AckInv;
    hide HasArrived;
    hide SlotFilled;
    hide R.Inv;
    hide Key;
    hide WindowInv;
    MessageKnown(o, s, n);
    hide SenderInv;
    var k := IdOf(endpoint, s.accepted[n]);
    if |s.accepted[n].frags| > 1 {
      i := SomeSlotEmpty(o, s, k, n);
    } else {
      i := 0;
      NoPartialOfSingle(o, s, k, n);
    }
  }

  lemma NoPartialOfSingle(o: LinkOptions, s: Link, k: R.Id, n: nat)
    requires Messages(o, s) && o.reliable && s.nSeq <= M64 && PartialsFrom(s.accepted, s.receiver.partials)
    requires n < |s.accepted| && |s.accepted[n].frags| == 1 && k.message == Key(s.accepted[n].base)
    ensures !SlotFilled(s.receiver.partials, k, 0)
  {
    hide Messages;
    hide SlotOf;
    hide Key;
    if k in s.receiver.partials {
      var m :| 0 <= m < |s.accepted| && PartialFrom(s.accepted[m], k, s.receiver.partials[k]);
      SameBase(o, s, m, n);
    }
  }

  /** The run, its timing, and the message it is about. */
  ghost predicate TimelyRun(o: LinkOptions, ro: LinkOptions, events: seq<Event>, states: seq<Link>, endpoint: u64,
                            n: nat) {
    && IsTrace(o, ro, events, states) && o.reliable && ro.reliable
    && states[|events|].nSeq <= M64 && n < |states[|events|].accepted|
    && Able(ro, states[|events|].accepted[n])
    && OneEndpoint(events, endpoint) && InTimeOrder(events) && TimersDue(events, states)
    && Timely(ro, events, states, n)
  }

  /** Every fragment of message n has arrived. */
  predicate AllHere(s: Link, n: nat) {
    && n < |s.accepted| && n < |s.starts|
    && forall i :: 0 <= i < |s.accepted[n].frags| ==> HasArrived(s, n, i)
  }

  /** Before all fragments have arrived, the drop timer does not fire. */
  lemma NotDropped(o: LinkOptions, ro: LinkOptions, events: seq<Event>, states: seq<Link>, endpoint: u64, n: nat,
                   j: nat)
    requires TimelyRun(o, ro, events, states, endpoint, n) && j < |events| && events[j].DropPartial?
    requires AllHere(states[|events|], n)
    requires TimedInv(ro, states[j], endpoint, n, LastFirst(events, states, n, j))
    requires n < |states[j].accepted| && events[j].id == IdOf(endpoint, states[j].accepted[n])
    ensures DeliveredOf(states[j], n) || LastFirst(events, states, n, j).None?
  {
    hide Enabled;
    hide Step;
    hide HasArrived;
    hide DeliveredOf;
    hide RecentArrived;
    hide SlotFilled;
    hide LinkInv;
    hide Able;
    hide Key;
    var s, last := states[j], LastFirst(events, states, n, j);
    if !DeliveredOf(s, n) && last.Some? {
      TraceReaches(o, ro, events, states, j);
      TraceGrows(o, ro, events, states, j, |events|);
      assert s.accepted[n] == states[|events|].accepted[n];
      assert IsDue(s.receiver.partials, events[j]);
      NotAtOnce(s, events[j], n);
      var i := SomeMissing(o, ro, s, endpoint, n, last);
      var f := NextFirst(o, ro, events, states, n, i, j);
    }
  }

  lemma NotAtOnce(s: Link, e: Event, n: nat)
    requires e.DropPartial?
    ensures !IsFirst(s, e, n)
  {
  }

  lemma StepTimed(o: LinkOptions, ro: LinkOptions, s: Link, e: Event, endpoint: u64, n: nat, g: Message,
                  last: Option<nat>)
    requires LinkInv(o, s) && o.reliable && ro.reliable && Enabled(o, ro, s, e) && s.nSeq <= M64 && Able(ro, g)
    requires LinkInv(o, Step(o, ro, s, e)) && Step(o, ro, s, e).nSeq <= M64
    requires TimedInv(ro, s, endpoint, n, last) && (n < |s.accepted| ==> s.accepted[n] == g)
    requires e.Deliver? ==> e.endpoint == endpoint
    requires e.DropPartial? && n < |s.accepted| && e.id == IdOf(endpoint, g) ==> DeliveredOf(s, n) || last.None?
    ensures TimedInv(ro, Step(o, ro, s, e), endpoint, n, Later(s, e, n, last))
  {
    hide LinkInv;
    hide Enabled;
    hide Step;
    hide TimedInv;
    hide DeliveredOf;
    hide HasArrived;
    match e
    case Submit(_, _, _) => SubmitTimed(o, ro, s, e, endpoint, n, last);
    case Deliver(_, _, _, _, _) => DeliverTimed(o, ro, s, e, endpoint, n, last);
    case AckArrives(_) => ResendTimed(o, ro, s, e, endpoint, n, last);
    case RtoExpires(_) => ResendTimed(o, ro, s, e, endpoint, n, last);
    case _ => DropTimed(o, ro, s, e, endpoint, n, last);
  }

  lemma {:induction false} TimedAt(o: LinkOptions, ro: LinkOptions, events: seq<Event>, states: seq<Link>,
                                   endpoint: u64, n: nat, j: nat)
    requires TimelyRun(o, ro, events, states, endpoint, n) && j <= |events|
    requires AllHere(states[|events|], n)
    ensures TimedInv(ro, states[j], endpoint, n, LastFirst(events, states, n, j))
  {
    hide Enabled;
    hide Step;
    hide HasArrived;
    hide DeliveredOf;
    hide LinkInv;
    hide Able;
    hide IdOf;
    hide TimersDue;
    hide Timely;
    hide InTimeOrder;
    if j == 0 {
      InitialTimed(ro, endpoint, n);
    } else {
      hide TimedInv;
      var s, e := states[j - 1], events[j - 1];
      TimedAt(o, ro, events, states, endpoint, n, j - 1);
      TraceReaches(o, ro, events, states, j - 1);
      TraceReaches(o, ro, events, states, j);
      TraceGrows(o, ro, events, states, j - 1, |events|);
      TraceGrows(o, ro, events, states, j, |events|);
      var g := states[|events|].accepted[n];
      if e.DropPartial? && n < |s.accepted| && e.id == IdOf(endpoint, g) {
        NotDropped(o, ro, events, states, endpoint, n, j - 1);
      }
      StepTimed(o, ro, s, e, endpoint, n, g, LastFirst(events, states, n, j - 1));
    }
  }

  lemma InitialTimed(ro: LinkOptions, endpoint: u64, n: nat)
    ensures TimedInv(ro, LinkRun.INITIAL, endpoint, n, None)
  {
  }

  /** Acknowledged means delivered, in time. In every run of a reliable link over one endpoint, with at
      most 2^64 Sequences and transmissions, in which drop timers do not fire early: if no gap between
      first arrivals of the fragments of a packet reaches the reassembly timeout, and the packet counts
      in nAcknowledged or nRetransmitted, then the peer has handed it up. */
  lemma TimelyAcknowledgedIsDelivered(o: LinkOptions, ro: LinkOptions, events: seq<Event>, states: seq<Link>,
                                      endpoint: u64, n: nat)
    requires TimelyRun(o, ro, events, states, endpoint, n) && |states[|events|].sent| <= M64
    requires n in states[|events|].w.acknowledged || n in states[|events|].w.retransmitted
    ensures DeliveredOf(states[|events|], n)
  {
    hide Enabled;
    hide Step;
    hide HasArrived;
    hide DeliveredOf;
    hide RecentArrived;
    hide LinkInv;
    hide Able;
    hide SlotFilled;
    hide Key;
    hide TimersDue;
    hide Timely;
    hide InTimeOrder;
    var s := states[|events|];
    TraceReaches(o, ro, events, states, |events|);
    StartsKnown(o, s);
    hide SenderInv;
    hide AckInv;
    hide ReceiverInv;
    forall i | 0 <= i < |s.accepted[n].frags|
      ensures HasArrived(s, n, i)
    {
      AllArrived(o, s, n, i);
    }
    TimedAt(o, ro, events, states, endpoint, n, |events|);
    if !DeliveredOf(s, n) {
      var i := SomeMissing(o, ro, s, endpoint, n, LastFirst(events, states, n, |events|));
    }
  }
}
