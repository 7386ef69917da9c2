/** A sender, a link that loses, reorders and duplicates packets, and a receiver. */
module LinkRun {
  import opened Basics
  import opened LpPackets
  import opened Tlv
  import opened Fragmenter
  import opened LinkSpec
  import opened ReassemblyRuns
  import R = Reassembler
  import W = TxWindow
  import WR = WindowRuns
  import H = WindowHistory
  import F = WindowFacts

  /** accepted: the network packets that the sender accepted, with their fragments; starts: the
      number of transmissions before each of them; nSeq: Sequences assigned; w: the send window;
      sent: every packet handed to the link, in order. arrivals: the packets whose TxSequence the
      receiver has queued as an Ack; attached: how many of these Acks have been sent back;
      results: what the receiver made of each packet that arrived. */
  datatype Link = Link(
    accepted: seq<Message>,
    starts: seq<nat>,
    nSeq: nat,
    w: W.State,
    sent: seq<LpPacket>,
    receiver: Receiver,
    arrivals: seq<nat>,
    attached: nat,
    results: seq<R.Result>)

  const INITIAL := Link([], [], 0, W.INITIAL, [], IDLE_RECEIVER, [], 0, [])

  /** Submit: the sender accepts a network packet. Deliver: the link hands over a copy of any packet
      that was ever sent. AttachAcks: the receiver sends Acks back. AckArrives: one of the Acks ever
      sent back reaches the sender. RtoExpires, DropPartial: timers of the sender and the receiver. */
  datatype Event =
    | Submit(p: LpPacket, frags: seq<LpPacket>, isInterest: bool)
    | Deliver(t: nat, endpoint: u64, pkt: LpPacket, now: nat, rto: nat)
    | AttachAcks(n: nat)
    | AckArrives(j: nat)
    | RtoExpires(k: u64)
    | DropPartial(id: R.Id, now: nat)

  /** A packet as it arrives: Acks may have been attached to it and a congestion mark set. */
  predicate Arrives(pkt: LpPacket, sent: LpPacket) {
    && pkt == sent.(acks := pkt.acks, congestionMark := pkt.congestionMark)
    && (pkt.congestionMark == sent.congestionMark || pkt.congestionMark == Some(1))
  }

  /** The step can happen; a length_error in the window ends the run. o, ro: options of the sender
      and of the receiver. */
  ghost predicate Enabled(o: LinkOptions, ro: LinkOptions, s: Link, e: Event) {
    W.Inv(s.w) &&
    match e
    case Submit(p, frags, isInterest) =>
      IsNetPacket(p) && IsSplit(p, frags) && Admit(o, s.w, frags, s.nSeq, p, isInterest).Done?
    case Deliver(t, endpoint, pkt, now, rto) => t < |s.sent| && Arrives(pkt, s.sent[t])
    case AttachAcks(n) => s.attached + n <= |s.arrivals|
    case AckArrives(j) =>
      && o.reliable && j < s.attached <= |s.arrivals| && s.arrivals[j] < |s.sent|
      && s.sent[s.arrivals[j]].txSequence.Some?
      && W.ProcessAck(o.window, s.w, s.sent[s.arrivals[j]].txSequence.value).Done?
    case RtoExpires(k) =>
      o.reliable && W.FindKey(s.w.live, k).Some? && W.Lose(o.window, s.w, W.FindKey(s.w.live, k).value).Done?
    case DropPartial(id, now) => true
  }

  /** The sender's window changes and its retransmissions are sent. */
  function Resend(s: Link, w: W.State): Link {
    if W.ResentGrows(s.w, w) then s.(w := w, sent := s.sent + H.Since(s.w, w)) else s
  }

  /** The receiver gets packet pkt, a copy of the t-th packet sent. */
  function Received(ro: LinkOptions, s: Link, t: nat, endpoint: u64, pkt: LpPacket, now: nat, rto: nat): Link {
    var (receiver, result) := Receive(ro, s.receiver, endpoint, pkt, now, rto);
    s.(receiver := receiver,
       arrivals := if ro.reliable && pkt.fragment.Some? && pkt.txSequence.Some? then s.arrivals + [t] else s.arrivals,
       results := s.results + [result])
  }

  function Step(o: LinkOptions, ro: LinkOptions, s: Link, e: Event): Link
    requires Enabled(o, ro, s, e)
  {
    match e
    case Submit(p, frags, isInterest) =>
      s.(accepted := s.accepted + [Message(p, frags, M64 - 1 + s.nSeq)],
         starts := s.starts + [s.w.next],
         nSeq := s.nSeq + (if UsesSequences(o, |frags|) then |frags| else 0),
         w := Admit(o, s.w, frags, s.nSeq, p, isInterest).s,
         sent := s.sent + AllOutgoing(o, frags, s.nSeq, s.w.next))
    case Deliver(t, endpoint, pkt, now, rto) => Received(ro, s, t, endpoint, pkt, now, rto)
    case AttachAcks(n) => s.(attached := s.attached + n)
    case AckArrives(j) => Resend(s, W.ProcessAck(o.window, s.w, s.sent[s.arrivals[j]].txSequence.value).s)
    case RtoExpires(k) => Resend(s, W.Lose(o.window, s.w, W.FindKey(s.w.live, k).value).s)
    case DropPartial(id, now) => s.(receiver := s.receiver.(partials := s.receiver.partials - {id}))
  }

  ghost predicate Reaches(o: LinkOptions, ro: LinkOptions, events: seq<Event>, s: Link)
    decreases |events|
  {
    if events == [] then s == INITIAL
    else
      var n := |events| - 1;
      exists p :: Reaches(o, ro, events[..n], p) && Enabled(o, ro, p, events[n]) && s == Step(o, ro, p, events[n])
  }

  // ---- the messages ----

  ghost predicate Messages(o: LinkOptions, s: Link) {
    && (forall m :: 0 <= m < |s.accepted| ==> GoodMessage(s.accepted[m]))
    && (forall m :: 0 <= m < |s.accepted| && Sequential(o, s.accepted[m]) ==>
          M64 - 1 <= s.accepted[m].base && EndOf(s.accepted[m]) <= M64 - 1 + s.nSeq)
    && (forall m, n :: 0 <= m < n < |s.accepted| && Sequential(o, s.accepted[m]) && Sequential(o, s.accepted[n]) ==>
          EndOf(s.accepted[m]) <= s.accepted[n].base)
  }

  ghost predicate GoodMessage(g: Message) {
    IsNetPacket(g.p) && IsSplit(g.p, g.frags) && g.frags != []
  }

  predicate Sequential(o: LinkOptions, g: Message) {
    UsesSequences(o, |g.frags|)
  }

  function EndOf(g: Message): nat {
    g.base + |g.frags|
  }

  /** At most 2^64 Sequences in use: the first Sequence identifies the message. */
  lemma SameBase(o: LinkOptions, s: Link, m: nat, n: nat)
    requires Messages(o, s) && s.nSeq <= M64 && m < |s.accepted| && n < |s.accepted|
    requires Sequential(o, s.accepted[m]) && Sequential(o, s.accepted[n])
    requires Key(s.accepted[m].base) == Key(s.accepted[n].base)
    ensures m == n
  {
    hide Key;
    hide IsSplit;
    hide IsNetPacket;
    if m != n {
      var a, b := if m < n then m else n, if m < n then n else m;
      assert EndOf(s.accepted[a]) <= s.accepted[b].base;
      assert GoodMessage(s.accepted[a]) && GoodMessage(s.accepted[b]);
      KeyInjective(s.accepted[a].base, s.accepted[b].base);
    }
  }

  /** pkt is fragment i of the message, as the sender emits it under some TxSequence. */
  ghost predicate Emitted(o: LinkOptions, g: Message, i: nat, pkt: LpPacket) {
    && i < |g.frags|
    && var frag := if Sequential(o, g) then Sequenced(g.frags[i], g.base + i) else g.frags[i];
       pkt == frag.(txSequence := pkt.txSequence)
  }

  ghost predicate FromSome(o: LinkOptions, accepted: seq<Message>, pkt: LpPacket) {
    exists m, i :: 0 <= m < |accepted| && 0 <= i < |accepted[m].frags| && Emitted(o, accepted[m], i, pkt)
  }

  ghost predicate AllFromSome(o: LinkOptions, s: Link) {
    forall t :: 0 <= t < |s.sent| ==> FromSome(o, s.accepted, s.sent[t])
  }

  // ---- the receiver ----

  /** A slot is empty or holds its fragment, with the mark it was sent with or a new one. */
  ghost predicate SlotOf(g: Message, slot: LpPacket, i: nat) {
    || slot == EMPTY
    || (IsFragment(g, slot, i)
        && (slot.congestionMark == g.frags[i].congestionMark || slot.congestionMark == Some(1)))
  }

  ghost predicate PartialFrom(g: Message, k: R.Id, pp: R.Partial) {
    && |g.frags| > 1 && k.message == Key(g.base)
    && pp.nReceived < |pp.fragments| == |g.frags|
    && forall i :: 0 <= i < |g.frags| ==> SlotOf(g, pp.fragments[i], i)
  }

  /** Each partial packet collects fragments of one message only, and lacks at least one. */
  ghost predicate PartialsFrom(accepted: seq<Message>, m: R.Partials) {
    forall k :: k in m ==> exists n :: 0 <= n < |accepted| && PartialFrom(accepted[n], k, m[k])
  }

  /** The delivered octets are those of the message, and the headers are its own; a congestion mark
      is the original one or 1. */
  predicate IsDelivery(g: Message, netPkt: Bytes, first: LpPacket) {
    && Some(netPkt) == g.p.fragment
    && first.headers == g.p.headers
    && (first.congestionMark == g.p.congestionMark || first.congestionMark == Some(1))
  }

  predicate GoodResult(accepted: seq<Message>, r: R.Result) {
    && !r.Malformed?
    && (r.Delivered? ==> exists n :: 0 <= n < |accepted| && IsDelivery(accepted[n], r.netPkt, r.first))
  }

  ghost predicate ReceiverInv(s: Link) {
    && R.Inv(s.receiver.partials)
    && PartialsFrom(s.accepted, s.receiver.partials)
    && forall i :: 0 <= i < |s.results| ==> GoodResult(s.accepted, s.results[i])
  }

  /** A fragment that completes its message gives back the packet. */
  lemma LastFragment(g: Message, k: R.Id, pp: R.Partial, slots: seq<LpPacket>)
    requires GoodMessage(g) && PartialFrom(g, k, pp)
    requires R.Filled(slots) == |slots| == |g.frags|
    requires forall i :: 0 <= i < |g.frags| ==> SlotOf(g, slots[i], i)
    ensures R.Reassembled(slots) == g.p.fragment && IsDelivery(g, g.p.fragment.value, slots[0])
  {
    hide R.Filled;
    hide Key;
    R.FilledAll(slots);
    CollectedGivesPacket(g, slots) by { hide IsFragment; }
    assert IsPiece(g.p, g.frags[0], 0, |g.frags|);
    assert SlotOf(g, slots[0], 0);
  }

  /** A packet that was not split is delivered as it is. */
  lemma SingleGood(o: R.Options, m: R.Partials, endpoint: u64, g: Message, sent: LpPacket, pkt: LpPacket, now: nat,
                   lo: LinkOptions)
    requires GoodMessage(g) && |g.frags| == 1 && Emitted(lo, g, 0, sent) && Arrives(pkt, sent)
    ensures var (m', r) := R.Add(o, m, endpoint, pkt, now);
            m' == m && !r.Malformed? && (r.Delivered? ==> IsDelivery(g, r.netPkt, r.first))
  {
    hide Key;
    hide ReadElement;
    assert g.frags == [g.p];
    var bs := g.p.fragment.value;
    assert bs[..|bs|] == bs;
  }

  /** The partial packet that a fragment is added to belongs to its message. */
  lemma TargetFrom(o: LinkOptions, s: Link, k: R.Id, n: nat)
    requires Messages(o, s) && s.nSeq <= M64 && PartialsFrom(s.accepted, s.receiver.partials)
    requires n < |s.accepted| && |s.accepted[n].frags| > 1 && k.message == Key(s.accepted[n].base)
    ensures PartialFrom(s.accepted[n], k, R.Target(s.receiver.partials, k, |s.accepted[n].frags|))
  {
    hide Key;
    hide SlotOf;
    var g := s.accepted[n];
    if k in s.receiver.partials {
      var n' :| 0 <= n' < |s.accepted| && PartialFrom(s.accepted[n'], k, s.receiver.partials[k]);
      SameBase(o, s, n, n');
    } else {
      SlotEmpty(g);
    }
  }

  lemma SlotEmpty(g: Message)
    ensures forall i: nat :: SlotOf(g, EMPTY, i)
  {
  }

  /** One fragment of a split message is put into its slot. */
  lemma StoreGood(o: R.Options, m: R.Partials, k: R.Id, g: Message, pp: R.Partial, pkt: LpPacket, now: nat)
    requires R.Inv(m) && GoodMessage(g) && PartialFrom(g, k, pp)
    requires R.IndexOf(pkt) < |g.frags| && SlotOf(g, pkt, R.IndexOf(pkt)) && pkt.sequence.Some?
    requires pp == R.Target(m, k, |g.frags|) && pp.fragments[R.IndexOf(pkt)].sequence.None?
    ensures var (m', r) := R.Store(o, m, k, pp, pkt, now);
            && !r.Malformed?
            && (r.Delivered? ==> IsDelivery(g, r.netPkt, r.first))
            && (m' == m - {k} || (exists pp' :: m' == m[k := pp'] && PartialFrom(g, k, pp')))
  {
    hide Key;
    hide R.Filled;
    hide R.Reassembled;
    hide SlotOf;
    hide GoodMessage;
    hide R.SlotInv;
    var i := R.IndexOf(pkt);
    var slots := pp.fragments[i := pkt];
    assert forall j :: 0 <= j < |g.frags| ==> SlotOf(g, slots[j], j);
    R.FilledUpdate(pp.fragments, i, pkt);
    R.FilledNone(|g.frags|);
    assert k in m ==> R.PartialInv(k, m[k]);
    assert R.Filled(slots) == pp.nReceived + 1;
    if pp.nReceived + 1 == |slots| {
      LastFragment(g, k, pp, slots);
      GoodHasFragment(g);
    } else {
      var pp' := R.Partial(slots, pp.nReceived + 1, Some(now + o.reassemblyTimeout));
      assert PartialFrom(g, k, pp');
      assert R.Store(o, m, k, pp, pkt, now).0 == m[k := pp'];
    }
  }

  lemma GoodHasFragment(g: Message)
    requires GoodMessage(g)
    ensures g.p.fragment.Some?
  {
  }

  /** An arriving fragment belongs into a slot of its message. */
  lemma ArrivesAsFragment(o: LinkOptions, g: Message, i: nat, sent: LpPacket, pkt: LpPacket)
    requires GoodMessage(g) && |g.frags| > 1 && Emitted(o, g, i, sent) && Arrives(pkt, sent)
    ensures SlotOf(g, pkt, i) && pkt.sequence.Some?
    ensures R.IndexOf(pkt) == i < R.CountOf(pkt) == |g.frags| && R.MessageOf(pkt) == Key(g.base)
  {
    hide Key;
    hide Join;
    hide IsElement;
    FragmentOf(g, pkt, i);
  }

  /** One more partial packet from a message, or one less. */
  lemma PartialsKept(accepted: seq<Message>, m: R.Partials, m': R.Partials, k: R.Id, n: nat)
    requires PartialsFrom(accepted, m) && n < |accepted|
    requires m' == m - {k} || (exists pp :: m' == m[k := pp] && PartialFrom(accepted[n], k, pp))
    ensures PartialsFrom(accepted, m')
  {
    hide PartialFrom;
    forall j | j in m'
      ensures exists n' :: 0 <= n' < |accepted| && PartialFrom(accepted[n'], j, m'[j])
    {
      if j != k {
        assert j in m && m'[j] == m[j];
      }
    }
  }

  /** Whatever arrives, the receiver keeps the messages apart. */
  lemma AddGood(o: LinkOptions, ro: R.Options, s: Link, endpoint: u64, sent: LpPacket, pkt: LpPacket, now: nat)
    requires Messages(o, s) && s.nSeq <= M64 && ReceiverInv(s)
    requires FromSome(o, s.accepted, sent) && Arrives(pkt, sent)
    ensures var (m', r) := R.Add(ro, s.receiver.partials, endpoint, pkt, now);
            R.Inv(m') && PartialsFrom(s.accepted, m') && GoodResult(s.accepted, r)
  {
    hide Key;
    hide Emitted;
    hide Arrives;
    hide R.Inv;
    hide PartialFrom;
    hide R.Store;
    hide SlotOf;
    hide IsDelivery;
    var m := s.receiver.partials;
    var n, i :| 0 <= n < |s.accepted| && 0 <= i < |s.accepted[n].frags| && Emitted(o, s.accepted[n], i, sent);
    var g := s.accepted[n];
    assert GoodMessage(g);
    hide Messages;
    hide GoodMessage;
    R.StepInv(ro, m, R.Arrival(endpoint, pkt, now));
    if |g.frags| == 1 {
      SingleGood(ro, m, endpoint, g, sent, pkt, now, o);
    } else {
      ArrivesAsFragment(o, g, i, sent, pkt);
      var k := R.Id(endpoint, R.MessageOf(pkt));
      var pp := R.Target(m, k, |g.frags|);
      TargetFrom(o, s, k, n);
      TargetSize(g, k, pp);
      if |g.frags| <= ro.nMaxFragments && pp.fragments[i].sequence.None? {
        StoreGood(ro, m, k, g, pp, pkt, now);
        PartialsKept(s.accepted, m, R.Store(ro, m, k, pp, pkt, now).0, k, n);
      }
    }
  }

  lemma TargetSize(g: Message, k: R.Id, pp: R.Partial)
    requires PartialFrom(g, k, pp)
    ensures |pp.fragments| == |g.frags|
  {
  }

  // ---- the sender ----

  /** Transmission starts[m] + i is the first one of fragment i of message m. */
  ghost predicate FirstSent(o: LinkOptions, s: Link, m: nat, i: nat) {
    && m < |s.accepted| == |s.starts| && |s.sent| == |s.w.log| && s.starts[m] + i < |s.sent|
    && s.w.log[s.starts[m] + i] == W.FragId(s.starts[m] + i, m)
    && Emitted(o, s.accepted[m], i, s.sent[s.starts[m] + i])
  }

  predicate KnownFragment(s: Link, x: W.FragId) {
    x.net < |s.accepted| == |s.starts| && s.starts[x.net] <= x.first < s.starts[x.net] + |s.accepted[x.net].frags|
  }

  /** The fragments in the log of the window are those of the messages. */
  ghost predicate Origins(o: LinkOptions, s: Link) {
    && |s.starts| == |s.accepted| && |s.sent| == |s.w.log|
    && (forall m, i :: 0 <= m < |s.accepted| && 0 <= i < |s.accepted[m].frags| ==> FirstSent(o, s, m, i))
    && (forall t :: 0 <= t < |s.w.log| ==> KnownFragment(s, s.w.log[t]))
  }

  ghost predicate WindowInv(o: LinkOptions, s: Link) {
    WR.RunInv(o.window, s.w) && H.History(s.w, s.sent) && |s.w.nets| == |s.accepted| && Origins(o, s)
  }

  ghost predicate SenderInv(o: LinkOptions, s: Link) {
    && Messages(o, s) && AllFromSome(o, s) && |s.starts| == |s.accepted|
    && (if o.reliable then WindowInv(o, s) else s.w == W.INITIAL)
  }

  /** Retransmission changes the TxSequence only. */
  lemma OriginsCover(o: LinkOptions, s: Link)
    requires Origins(o, s) && H.SentLog(s.w, s.sent)
    ensures AllFromSome(o, s)
  {
    hide Key;
    forall t | 0 <= t < |s.sent|
      ensures FromSome(o, s.accepted, s.sent[t])
    {
      var x := s.w.log[t];
      assert KnownFragment(s, x);
      var i := x.first - s.starts[x.net];
      assert FirstSent(o, s, x.net, i);
      assert Emitted(o, s.accepted[x.net], i, s.sent[t]);
    }
  }

  lemma FromSomeGrows(o: LinkOptions, a: seq<Message>, g: Message, pkt: LpPacket)
    requires FromSome(o, a, pkt)
    ensures FromSome(o, a + [g], pkt)
  {
    hide Emitted;
    var m, i :| 0 <= m < |a| && 0 <= i < |a[m].frags| && Emitted(o, a[m], i, pkt);
    assert (a + [g])[m] == a[m];
  }

  /** The message that sendNetPacket accepts next. */
  function NextMessage(s: Link, p: LpPacket, frags: seq<LpPacket>): Message {
    Message(p, frags, M64 - 1 + s.nSeq)
  }

  lemma OutgoingEmitted(o: LinkOptions, s: Link, p: LpPacket, frags: seq<LpPacket>, i: nat)
    requires i < |frags|
    ensures Emitted(o, NextMessage(s, p, frags), i, AllOutgoing(o, frags, s.nSeq, s.w.next)[i])
    ensures o.reliable ==> AllOutgoing(o, frags, s.nSeq, s.w.next)[i]
                           == W.Numbered(SequencedAll(o, frags, s.nSeq)[i], s.w.next + i)
  {
    hide Key;
  }

  lemma SubmitMessages(o: LinkOptions, ro: LinkOptions, s: Link, e: Event)
    requires Messages(o, s) && AllFromSome(o, s) && e.Submit? && Enabled(o, ro, s, e)
    ensures Messages(o, Step(o, ro, s, e)) && AllFromSome(o, Step(o, ro, s, e))
  {
    hide IsSplit;
    hide IsNetPacket;
    hide Emitted;
    hide Admit;
    hide AllOutgoing;
    hide W.Inv;
    hide Key;
    var s', g := Step(o, ro, s, e), NextMessage(s, e.p, e.frags);
    var out := AllOutgoing(o, e.frags, s.nSeq, s.w.next);
    SplitNotEmpty(e.p, e.frags);
    OutgoingSize(o, e.frags, s.nSeq, s.w.next);
    forall t | 0 <= t < |s'.sent|
      ensures FromSome(o, s'.accepted, s'.sent[t])
    {
      if t < |s.sent| {
        FromSomeGrows(o, s.accepted, g, s.sent[t]);
      } else {
        OutgoingEmitted(o, s, e.p, e.frags, t - |s.sent|);
        assert s'.sent[t] == out[t - |s.sent|];
        assert s'.accepted[|s.accepted|] == g;
      }
    }
  }

  lemma SplitNotEmpty(p: LpPacket, frags: seq<LpPacket>)
    requires IsNetPacket(p) && IsSplit(p, frags)
    ensures frags != []
  {
  }

  lemma OutgoingSize(o: LinkOptions, frags: seq<LpPacket>, nSeq: nat, nTx: nat)
    ensures |AllOutgoing(o, frags, nSeq, nTx)| == |SequencedAll(o, frags, nSeq)| == |frags|
  {
  }

  lemma SubmitOrigins(o: LinkOptions, s: Link, p: LpPacket, frags: seq<LpPacket>, s': Link)
    requires Origins(o, s) && |s.w.log| == s.w.next
    requires s'.accepted == s.accepted + [NextMessage(s, p, frags)] && s'.starts == s.starts + [s.w.next]
    requires s'.sent == s.sent + AllOutgoing(o, frags, s.nSeq, s.w.next)
    requires s'.w.log == s.w.log + H.FirstLog(s.w.next, |s.accepted|, |frags|)
    ensures Origins(o, s')
  {
    hide Emitted;
    hide AllOutgoing;
    OutgoingSize(o, frags, s.nSeq, s.w.next);
    forall m, i | 0 <= m < |s'.accepted| && 0 <= i < |s'.accepted[m].frags|
      ensures FirstSent(o, s', m, i)
    {
      if m < |s.accepted| {
        assert FirstSent(o, s, m, i);
      } else {
        OutgoingEmitted(o, s, p, frags, i);
      }
    }
    forall t | 0 <= t < |s'.w.log|
      ensures KnownFragment(s', s'.w.log[t])
    {
      if t < |s.w.log| {
        assert KnownFragment(s, s.w.log[t]);
      }
    }
  }

  lemma SubmitInv(o: LinkOptions, ro: LinkOptions, s: Link, e: Event)
    requires SenderInv(o, s) && e.Submit? && Enabled(o, ro, s, e)
    ensures SenderInv(o, Step(o, ro, s, e))
    ensures Step(o, ro, s, e).w.acks == s.w.acks
  {
    hide Messages;
    hide AllFromSome;
    hide IsSplit;
    hide IsNetPacket;
    hide Origins;
    hide W.Inv;
    hide H.History;
    hide WR.RunInv;
    hide AllOutgoing;
    hide SequencedAll;
    hide W.HandleOutgoing;
    SubmitMessages(o, ro, s, e);
    if o.reliable {
      SplitNotEmpty(e.p, e.frags);
      OutgoingSize(o, e.frags, s.nSeq, s.w.next);
      var pkts := SequencedAll(o, e.frags, s.nSeq);
      WR.OutgoingRunInv(o.window, s.w, pkts, e.p, e.isInterest);
      H.OutgoingHistory(s.w, pkts, e.p, e.isInterest, s.sent);
      forall i | 0 <= i < |e.frags|
        ensures AllOutgoing(o, e.frags, s.nSeq, s.w.next)[i] == H.NumberedAll(pkts, s.w.next)[i]
      {
        OutgoingEmitted(o, s, e.p, e.frags, i);
      }
      assert AllOutgoing(o, e.frags, s.nSeq, s.w.next) == H.NumberedAll(pkts, s.w.next);
      LogSize(s.w, s.sent);
      SubmitOrigins(o, s, e.p, e.frags, Step(o, ro, s, e));
    }
  }

  lemma LogSize(w: W.State, sent: seq<LpPacket>)
    requires H.History(w, sent)
    ensures |w.log| == w.next == |sent|
  {
  }

  /** The window retransmits. */
  lemma ResendInv(o: LinkOptions, s: Link, w: W.State)
    requires SenderInv(o, s) && o.reliable
    requires W.ResentGrows(s.w, w) && WR.RunInv(o.window, w) && H.History(w, s.sent + H.Since(s.w, w))
    requires |w.nets| == |s.w.nets| && H.Repeats(s.w.log, w.log)
    ensures SenderInv(o, Resend(s, w))
  {
    hide Messages;
    hide AllFromSome;
    hide Emitted;
    hide WR.RunInv;
    hide W.Inv;
    hide H.Fates;
    hide W.Numbered;
    var s' := Resend(s, w);
    forall m, i | 0 <= m < |s'.accepted| && 0 <= i < |s'.accepted[m].frags|
      ensures FirstSent(o, s', m, i)
    {
      assert FirstSent(o, s, m, i);
    }
    forall t | 0 <= t < |w.log|
      ensures KnownFragment(s', w.log[t])
    {
      var u :| 0 <= u < |s.w.log| && s.w.log[u] == w.log[t];
      assert KnownFragment(s, s.w.log[u]);
    }
    OriginsCover(o, s');
    MessagesSame(o, s, s');
  }

  lemma MessagesSame(o: LinkOptions, s: Link, s': Link)
    requires Messages(o, s) && s'.accepted == s.accepted && s'.nSeq == s.nSeq
    ensures Messages(o, s')
  {
  }

  // ---- the whole link ----

  /** With fewer than 2^64 transmissions, only what has arrived is acknowledged. */
  ghost predicate AckInv(o: LinkOptions, s: Link) {
    && s.attached <= |s.arrivals|
    && (forall j :: 0 <= j < |s.arrivals| ==> s.arrivals[j] < |s.sent|)
    && (o.reliable && |s.sent| <= M64 ==> forall i :: 0 <= i < |s.w.acks| ==> s.w.acks[i] in s.arrivals)
  }

  ghost predicate LinkInv(o: LinkOptions, s: Link) {
    SenderInv(o, s) && AckInv(o, s) && (s.nSeq <= M64 ==> ReceiverInv(s))
  }

  lemma ReceiverGrows(s: Link, s': Link, g: Message)
    requires ReceiverInv(s) && s'.accepted == s.accepted + [g]
    requires s'.receiver == s.receiver && s'.results == s.results
    ensures ReceiverInv(s')
  {
    hide PartialFrom;
    hide IsDelivery;
    hide R.Inv;
    forall k | k in s'.receiver.partials
      ensures exists n :: 0 <= n < |s'.accepted| && PartialFrom(s'.accepted[n], k, s'.receiver.partials[k])
    {
      var n :| 0 <= n < |s.accepted| && PartialFrom(s.accepted[n], k, s.receiver.partials[k]);
      assert s'.accepted[n] == s.accepted[n];
    }
    forall i | 0 <= i < |s'.results|
      ensures GoodResult(s'.accepted, s'.results[i])
    {
      var r := s.results[i];
      assert GoodResult(s.accepted, r);
      if r.Delivered? {
        var n :| 0 <= n < |s.accepted| && IsDelivery(s.accepted[n], r.netPkt, r.first);
        assert s'.accepted[n] == s.accepted[n];
      }
    }
  }

  /** Steps of the receiver leave the sender alone. */
  lemma SenderSame(o: LinkOptions, s: Link, s': Link)
    requires SenderInv(o, s)
    requires s'.accepted == s.accepted && s'.starts == s.starts && s'.nSeq == s.nSeq
    requires s'.w == s.w && s'.sent == s.sent
    ensures SenderInv(o, s')
  {
    hide WR.RunInv;
    hide H.History;
    hide Emitted;
    hide FromSome;
    hide W.INITIAL;
    MessagesSame(o, s, s');
    if o.reliable {
      forall m, i | 0 <= m < |s'.accepted| && 0 <= i < |s'.accepted[m].frags|
        ensures FirstSent(o, s', m, i)
      {
        assert FirstSent(o, s, m, i);
      }
      forall t | 0 <= t < |s'.w.log|
        ensures KnownFragment(s', s'.w.log[t])
      {
        assert KnownFragment(s, s.w.log[t]);
      }
    }
  }

  lemma DeliverInv(o: LinkOptions, ro: LinkOptions, s: Link, e: Event)
    requires LinkInv(o, s) && e.Deliver? && Enabled(o, ro, s, e)
    ensures LinkInv(o, Step(o, ro, s, e))
  {
    hide SenderInv;
    hide R.Add;
    hide R.Inv;
    hide PartialsFrom;
    hide Arrives;
    hide RecentAfter;
    hide W.Inv;
    var s' := Step(o, ro, s, e);
    SenderSame(o, s, s');
    if s.nSeq <= M64 {
      SentKnown(o, s, e.t);
      AddGood(o, ro.reassembler, s, e.endpoint, s.sent[e.t], e.pkt, e.now);
      forall i | 0 <= i < |s'.results|
        ensures GoodResult(s'.accepted, s'.results[i])
      {
        if i < |s.results| {
          assert GoodResult(s.accepted, s.results[i]);
        }
      }
    }
  }

  lemma SentKnown(o: LinkOptions, s: Link, t: nat)
    requires SenderInv(o, s) && t < |s.sent|
    ensures Messages(o, s) && FromSome(o, s.accepted, s.sent[t])
  {
  }

  /** The transmission that an Ack names, when no TxSequence has been used twice. */
  lemma AckNames(o: LinkOptions, s: Link, t: nat)
    requires SenderInv(o, s) && o.reliable && t < |s.sent|
    ensures W.Inv(s.w) && s.sent[t].txSequence == Some(Key(t))
    ensures |s.sent| <= M64 ==>
              match W.FindKey(s.w.live, Key(t))
              case None => forall i :: 0 <= i < |s.w.live| ==> s.w.live[i].tx != t
              case Some(i) => s.w.live[i].tx == t
  {
    hide Messages;
    hide AllFromSome;
    hide Origins;
    hide WR.RunInv;
    hide H.Fates;
    hide H.Logged;
    assert s.sent[t] == W.Numbered(s.sent[s.w.log[t].first], t);
  }

  lemma AckArrivesInv(o: LinkOptions, ro: LinkOptions, s: Link, e: Event)
    requires LinkInv(o, s) && e.AckArrives? && Enabled(o, ro, s, e)
    ensures LinkInv(o, Step(o, ro, s, e))
  {
    hide ReceiverInv;
    hide WR.RunInv;
    hide H.History;
    hide W.ProcessAck;
    hide W.Inv;
    hide Messages;
    hide AllFromSome;
    hide Origins;
    var t := s.arrivals[e.j];
    AckNames(o, s, t);
    var w := W.ProcessAck(o.window, s.w, Key(t)).s;
    WR.AckRunInv(o.window, s.w, Key(t));
    H.AckHistory(o.window, s.w, Key(t), s.sent);
    ResendInv(o, s, w);
    ReceiverSame(s, Resend(s, w));
  }

  lemma ReceiverSame(s: Link, s': Link)
    requires s'.accepted == s.accepted && s'.receiver == s.receiver && s'.results == s.results
    ensures ReceiverInv(s) ==> ReceiverInv(s')
  {
  }

  lemma RtoExpiresInv(o: LinkOptions, ro: LinkOptions, s: Link, e: Event)
    requires LinkInv(o, s) && e.RtoExpires? && Enabled(o, ro, s, e)
    ensures LinkInv(o, Step(o, ro, s, e))
  {
    hide ReceiverInv;
    hide WR.RunInv;
    hide H.History;
    hide W.Lose;
    hide Messages;
    hide AllFromSome;
    hide Origins;
    var i := W.FindKey(s.w.live, e.k).value;
    var w := W.Lose(o.window, s.w, i).s;
    WR.LoseRunInv(o.window, s.w, i);
    H.LoseHistory(o.window, s.w, i, s.sent);
    ResendInv(o, s, w);
    ReceiverSame(s, Resend(s, w));
  }

  lemma SubmitLinkInv(o: LinkOptions, ro: LinkOptions, s: Link, e: Event)
    requires LinkInv(o, s) && e.Submit? && Enabled(o, ro, s, e)
    ensures LinkInv(o, Step(o, ro, s, e))
  {
    hide SenderInv;
    hide ReceiverInv;
    hide W.Inv;
    hide Admit;
    hide IsSplit;
    hide IsNetPacket;
    SubmitInv(o, ro, s, e);
    if s.nSeq <= M64 {
      ReceiverGrows(s, Step(o, ro, s, e), NextMessage(s, e.p, e.frags));
    }
  }

  lemma DropInv(o: LinkOptions, ro: LinkOptions, s: Link, e: Event)
    requires LinkInv(o, s) && (e.DropPartial? || e.AttachAcks?) && Enabled(o, ro, s, e)
    ensures LinkInv(o, Step(o, ro, s, e))
  {
    hide SenderInv;
    hide PartialFrom;
    hide W.Inv;
    hide R.PartialInv;
    SenderSame(o, s, Step(o, ro, s, e));
  }

  lemma StepLinkInv(o: LinkOptions, ro: LinkOptions, s: Link, e: Event)
    requires LinkInv(o, s) && Enabled(o, ro, s, e)
    ensures LinkInv(o, Step(o, ro, s, e))
  {
    hide LinkInv;
    hide Enabled;
    hide Step;
    match e
    case Submit(_, _, _) => SubmitLinkInv(o, ro, s, e);
    case Deliver(_, _, _, _, _) => DeliverInv(o, ro, s, e);
    case AckArrives(_) => AckArrivesInv(o, ro, s, e);
    case RtoExpires(_) => RtoExpiresInv(o, ro, s, e);
    case _ => DropInv(o, ro, s, e);
  }

  lemma InitialInv(o: LinkOptions)
    ensures LinkInv(o, INITIAL)
  {
    assert W.NetsOf([]) == {};
  }

  lemma {:induction false} EveryLinkRun(o: LinkOptions, ro: LinkOptions, events: seq<Event>, s: Link)
    requires Reaches(o, ro, events, s)
    ensures LinkInv(o, s)
    decreases |events|
  {
    hide LinkInv;
    hide Enabled;
    hide Step;
    if events == [] {
      InitialInv(o);
    } else {
      var n := |events| - 1;
      var p :| Reaches(o, ro, events[..n], p) && Enabled(o, ro, p, events[n]) && s == Step(o, ro, p, events[n]);
      EveryLinkRun(o, ro, events[..n], p);
      StepLinkInv(o, ro, p, events[n]);
    }
  }

  // ---- what the link guarantees ----

  /** End-to-end safety. In every run with at most 2^64 Sequences, whatever the link loses, repeats
      or reorders, and whatever is retransmitted or times out: nothing that arrives is malformed,
      and every packet handed up is, octet for octet, one that the sender accepted, with that
      packet's own headers. */
  lemma EndToEndSafety(o: LinkOptions, ro: LinkOptions, events: seq<Event>, s: Link, i: nat)
    requires Reaches(o, ro, events, s) && s.nSeq <= M64 && i < |s.results|
    ensures !s.results[i].Malformed?
    ensures s.results[i].Delivered? ==>
              exists n :: 0 <= n < |s.accepted| && IsDelivery(s.accepted[n], s.results[i].netPkt, s.results[i].first)
  {
    EveryLinkRun(o, ro, events, s);
    assert GoodResult(s.accepted, s.results[i]);
  }

  /** No false acknowledgement. In every run with at most 2^64 transmissions: when a network packet
      counts in nAcknowledged or nRetransmitted, a transmission of every one of its fragments has
      arrived. */
  lemma NoFalseAcknowledgement(o: LinkOptions, ro: LinkOptions, events: seq<Event>, s: Link, n: nat, i: nat)
    requires Reaches(o, ro, events, s) && o.reliable && |s.sent| <= M64
    requires n in s.w.acknowledged || n in s.w.retransmitted
    ensures n < |s.accepted|
    ensures i < |s.accepted[n].frags| ==>
              exists j :: 0 <= j < |s.arrivals| && s.arrivals[j] < |s.sent|
                          && Emitted(o, s.accepted[n], i, s.sent[s.arrivals[j]])
  {
    hide SenderInv;
    hide ReceiverInv;
    hide Emitted;
    EveryLinkRun(o, ro, events, s);
    AckedKnown(o, s, n);
    if i < |s.accepted[n].frags| {
      var a := FragmentAcked(o, s, n, i);
      var j :| 0 <= j < |s.arrivals| && s.arrivals[j] == a;
    }
  }

  lemma AckedKnown(o: LinkOptions, s: Link, n: nat)
    requires SenderInv(o, s) && o.reliable
    requires n in s.w.acknowledged || n in s.w.retransmitted
    ensures n < |s.accepted|
  {
    hide Messages;
    hide AllFromSome;
    hide Origins;
    hide H.History;
    hide WR.Overtakings;
    hide WR.Retransmissions;
    hide WR.Drops;
  }

  /** Some acknowledged transmission a carries fragment i of the message. */
  lemma FragmentAcked(o: LinkOptions, s: Link, n: nat, i: nat) returns (a: nat)
    requires SenderInv(o, s) && o.reliable && n < |s.accepted| && i < |s.accepted[n].frags|
    requires n in s.w.acknowledged || n in s.w.retransmitted
    ensures a in s.w.acks && a < |s.sent| && Emitted(o, s.accepted[n], i, s.sent[a])
  {
    hide Messages;
    hide AllFromSome;
    hide H.Fates;
    hide H.Logged;
    hide WR.RunInv;
    hide W.Inv;
    hide Key;
    assert FirstSent(o, s, n, i);
    var t := s.starts[n] + i;
    H.CompleteIsAcked(o.window, s.w, s.sent, t);
    var h :| 0 <= h < |s.w.acks| && s.w.acks[h] < |s.w.log| && s.w.log[s.w.acks[h]] == s.w.log[t];
    a := s.w.acks[h];
    assert s.sent[a] == W.Numbered(s.sent[t], a);
  }

  /** An Ack for a transmission that has left the window, acknowledged, superseded or given up,
      changes nothing. */
  lemma LateAckChangesNothing(o: LinkOptions, ro: LinkOptions, events: seq<Event>, s: Link, j: nat)
    requires Reaches(o, ro, events, s) && |s.sent| <= M64 && Enabled(o, ro, s, AckArrives(j))
    requires forall i :: 0 <= i < |s.w.live| ==> s.w.live[i].tx != s.arrivals[j]
    ensures Step(o, ro, s, AckArrives(j)) == s
  {
    hide Messages;
    hide AllFromSome;
    hide ReceiverInv;
    hide Origins;
    hide H.History;
    hide WR.RunInv;
    EveryLinkRun(o, ro, events, s);
    AckNames(o, s, s.arrivals[j]);
    assert s.sent + H.Since(s.w, s.w) == s.sent;
  }

  // ---- the window knows the packets as they were submitted ----

  function Submitted(events: seq<Event>): seq<F.Entry>
    decreases |events|
  {
    if events == [] then []
    else
      var e := events[|events| - 1];
      Submitted(events[..|events| - 1]) + (if e.Submit? then [F.Entry(e.p, e.isInterest)] else [])
  }

  ghost predicate KnownAs(o: LinkOptions, s: Link, entries: seq<F.Entry>) {
    && F.Facts(o.window, s.w) && F.NetsAre(s.w.nets, entries)
    && |s.accepted| == |entries| && forall m :: 0 <= m < |entries| ==> s.accepted[m].p == entries[m].pkt
  }

  lemma StepKnown(o: LinkOptions, ro: LinkOptions, s: Link, e: Event, entries: seq<F.Entry>)
    requires LinkInv(o, s) && o.reliable && Enabled(o, ro, s, e) && KnownAs(o, s, entries)
    ensures KnownAs(o, Step(o, ro, s, e), entries + (if e.Submit? then [F.Entry(e.p, e.isInterest)] else []))
  {
    hide ReceiverInv;
    hide AckInv;
    hide Messages;
    hide AllFromSome;
    hide Origins;
    hide WR.RunInv;
    hide H.History;
    hide F.Facts;
    hide W.HandleOutgoing;
    hide W.ProcessAck;
    hide W.Lose;
    hide Receive;
    hide AllOutgoing;
    hide IsNetPacket;
    hide IsSplit;
    assert entries + [] == entries;
    match e
    case Submit(p, frags, isInterest) =>
      SplitNotEmpty(p, frags);
      OutgoingSize(o, frags, s.nSeq, s.w.next);
      F.OutgoingFacts(o.window, s.w, SequencedAll(o, frags, s.nSeq), p, isInterest, entries);
    case AckArrives(j) => F.AckFacts(o.window, s.w, s.sent[s.arrivals[j]].txSequence.value);
    case RtoExpires(k) => F.LoseFacts(o.window, s.w, W.FindKey(s.w.live, k).value);
    case _ =>
  }

  /** In every run of a reliable link, the m-th network packet of the window is the m-th one submitted,
      Interest or not as it was submitted; it is given up only after maxRetx + 1 transmissions of one of
      its fragments. */
  lemma {:induction false} WindowKnowsSubmitted(o: LinkOptions, ro: LinkOptions, events: seq<Event>, s: Link)
    requires Reaches(o, ro, events, s) && o.reliable
    ensures KnownAs(o, s, Submitted(events))
    decreases |events|
  {
    hide LinkInv;
    hide Enabled;
    hide Step;
    if events == [] {
      F.NoFacts(o.window);
    } else {
      hide KnownAs;
      var n := |events| - 1;
      var p :| Reaches(o, ro, events[..n], p) && Enabled(o, ro, p, events[n]) && s == Step(o, ro, p, events[n]);
      WindowKnowsSubmitted(o, ro, events[..n], p);
      EveryLinkRun(o, ro, events[..n], p);
      StepKnown(o, ro, p, events[n], Submitted(events[..n]));
    }
  }
}
