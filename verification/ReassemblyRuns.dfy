/** Fragmentation followed by reassembly, over every order of arrivals. */
module ReassemblyRuns {
  import opened Basics
  import opened LpPackets
  import opened Tlv
  import opened Fragmenter
  import opened Reassembler

  // ---- one message ----

  /** A network packet p that was split into frags and numbered from Sequence Key(base). */
  datatype Message = Message(p: LpPacket, frags: seq<LpPacket>, base: nat)

  ghost predicate IsMessage(g: Message) {
    && g.p.fragment.Some? && IsElement(g.p.fragment.value)
    && Fragmented(g.p, g.frags)
  }

  function Sequenced(frag: LpPacket, n: nat): LpPacket {
    frag.(sequence := Some(Key(n)))
  }

  /** pkt is the fragment as the link may deliver it: a retransmission has another TxSequence, and
      Acks and congestion marks come and go. */
  predicate Carries(pkt: LpPacket, frag: LpPacket) {
    pkt == frag.(acks := pkt.acks, txSequence := pkt.txSequence, congestionMark := pkt.congestionMark)
  }

  predicate IsFragment(g: Message, pkt: LpPacket, i: nat) {
    i < |g.frags| && Carries(pkt, Sequenced(g.frags[i], g.base + i))
  }

  /** The wrap-around subtraction of the reassembler recovers the message from any fragment. */
  lemma FragmentOf(g: Message, pkt: LpPacket, i: nat)
    requires IsMessage(g) && IsFragment(g, pkt, i)
    ensures HasPayload(pkt) && pkt.fragment == g.frags[i].fragment && pkt.sequence.Some?
    ensures IndexOf(pkt) == i < CountOf(pkt) == |g.frags|
    ensures MessageOf(pkt) == Key(g.base)
  {
    hide Join;
    assert IsPiece(g.p, g.frags[i], i, |g.frags|);
    KeyFrom(g.base, g.base + i);
  }

  lemma {:induction false} JoinSame(a: seq<LpPacket>, b: seq<LpPacket>)
    requires |a| == |b|
    requires forall i :: 0 <= i < |a| ==> a[i].fragment.Some? && a[i].fragment == b[i].fragment
    ensures Join(a) == Join(b)
  {
    if a != [] {
      JoinSame(a[..|a| - 1], b[..|b| - 1]);
    }
  }

  /** Fragments collected in their slots give back the packet. */
  lemma CollectedGivesPacket(g: Message, slots: seq<LpPacket>)
    requires IsMessage(g) && |slots| == |g.frags|
    requires forall i :: 0 <= i < |slots| ==> IsFragment(g, slots[i], i)
    ensures Reassembled(slots) == g.p.fragment
  {
    hide IsFragment;
    forall i | 0 <= i < |slots|
      ensures HasPayload(slots[i]) && slots[i].fragment == g.frags[i].fragment
    {
      FragmentOf(g, slots[i], i);
    }
    JoinSame(slots, g.frags);
    var bs := g.p.fragment.value;
    assert bs[..|bs|] == bs;
  }

  // ---- runs ----

  /** The partial packets before event j. */
  function Before(o: Options, m: Partials, es: seq<Event>, j: nat): Partials
    requires j <= |es|
  {
    if j == 0 then m else Step(o, Before(o, m, es, j - 1), es[j - 1]).0
  }

  ghost predicate IsRun(o: Options, m: Partials, es: seq<Event>) {
    (forall j :: 0 <= j < |es| ==> Enabled(Before(o, m, es, j), es[j])) && InTimeOrder(es)
  }

  predicate InTimeOrder(es: seq<Event>) {
    forall j :: 0 < j < |es| ==> es[j - 1].now <= es[j].now
  }

  /** The event is the arrival of a fragment that the reassembler files under k. */
  predicate Addressed(k: Id, e: Event) {
    && e.Arrival? && e.endpoint == k.endpoint && e.pkt.sequence.Some? && CountOf(e.pkt) != 1
    && MessageOf(e.pkt) == k.message
  }

  /** seen: the indexes that have arrived; last: when the latest of them arrived for the first time. */
  datatype Progress = Progress(seen: set<nat>, last: nat)

  predicate IsNew(k: Id, p: Progress, e: Event) {
    Addressed(k, e) && IndexOf(e.pkt) !in p.seen
  }

  function Advanced(k: Id, p: Progress, e: Event): Progress {
    if IsNew(k, p, e) then Progress(p.seen + {IndexOf(e.pkt) as nat}, e.now) else p
  }

  function ProgressOf(k: Id, es: seq<Event>, j: nat): Progress
    requires j <= |es|
  {
    if j == 0 then Progress({}, 0) else Advanced(k, ProgressOf(k, es, j - 1), es[j - 1])
  }

  /** Every index has arrived. */
  predicate AllSeen(seen: set<nat>, n: nat) {
    forall i :: 0 <= i < n ==> i in seen
  }

  /** No gap between fragments that are new reaches the timeout. */
  predicate Timely(o: Options, k: Id, es: seq<Event>, n: nat)
    requires n <= |es|
  {
    forall j :: 0 <= j < n && IsNew(k, ProgressOf(k, es, j), es[j]) && ProgressOf(k, es, j).seen != {} ==>
      es[j].now < ProgressOf(k, es, j).last + o.reassemblyTimeout
  }

  /** Then no event before the last new fragment comes late. */
  lemma {:induction false} NeverLate(o: Options, k: Id, es: seq<Event>, n: nat, j: nat)
    requires InTimeOrder(es) && j <= n < |es| && Timely(o, k, es, n + 1)
    requires IsNew(k, ProgressOf(k, es, n), es[n])
    requires ProgressOf(k, es, j).seen != {}
    ensures es[j].now < ProgressOf(k, es, j).last + o.reassemblyTimeout
    decreases n - j
  {
    hide IsNew;
    assert ProgressOf(k, es, j + 1) == Advanced(k, ProgressOf(k, es, j), es[j]);
    hide ProgressOf;
    if !IsNew(k, ProgressOf(k, es, j), es[j]) {
      NeverLate(o, k, es, n, j + 1);
      assert es[j + 1 - 1].now <= es[j + 1].now;
    }
  }

  function IdOf(endpoint: u64, g: Message): Id {
    Id(endpoint, Key(g.base))
  }

  /** Only fragments of the message are filed under its identifier. */
  ghost predicate Undisturbed(endpoint: u64, g: Message, es: seq<Event>) {
    forall j :: 0 <= j < |es| && Addressed(IdOf(endpoint, g), es[j]) ==> IsFragment(g, es[j].pkt, IndexOf(es[j].pkt))
  }

  /** The slots hold exactly the fragments seen so far. */
  ghost predicate Collecting(o: Options, m: Partials, endpoint: u64, g: Message, p: Progress) {
    var k := IdOf(endpoint, g);
    if p.seen == {} then k !in m
    else
      && k in m && |m[k].fragments| == |g.frags| && m[k].nReceived == |p.seen|
      && m[k].dropTimer == Some(p.last + o.reassemblyTimeout)
      && forall i :: 0 <= i < |g.frags| ==>
           if i in p.seen then IsFragment(g, m[k].fragments[i], i) else m[k].fragments[i] == EMPTY
  }

  ghost predicate Incomplete(g: Message, p: Progress) {
    (forall i :: i in p.seen ==> i < |g.frags|) && !AllSeen(p.seen, |g.frags|)
  }

  /** An event that brings nothing new leaves the collection as it is. */
  lemma NothingNew(o: Options, m: Partials, endpoint: u64, g: Message, p: Progress, e: Event)
    requires IsMessage(g) && |g.frags| <= o.nMaxFragments && Enabled(m, e)
    requires Collecting(o, m, endpoint, g, p) && Incomplete(g, p)
    requires !IsNew(IdOf(endpoint, g), p, e)
    requires Addressed(IdOf(endpoint, g), e) ==> IsFragment(g, e.pkt, IndexOf(e.pkt))
    requires p.seen != {} ==> e.now < p.last + o.reassemblyTimeout
    ensures Collecting(o, Step(o, m, e).0, endpoint, g, p)
  {
    hide Reassembled;
    hide Fragmented;
    hide Key;
    var k := IdOf(endpoint, g);
    if Addressed(k, e) {
      FragmentOf(g, e.pkt, IndexOf(e.pkt));
      FragmentOf(g, m[k].fragments[IndexOf(e.pkt)], IndexOf(e.pkt));
      assert Step(o, m, e).0 == m;
    }
  }

  /** A new fragment that is not the last is collected. */
  lemma OneMore(o: Options, m: Partials, endpoint: u64, g: Message, p: Progress, e: Event)
    requires IsMessage(g) && |g.frags| <= o.nMaxFragments
    requires Collecting(o, m, endpoint, g, p) && Incomplete(g, p)
    requires IsNew(IdOf(endpoint, g), p, e) && IsFragment(g, e.pkt, IndexOf(e.pkt))
    ensures var p' := Progress(p.seen + {IndexOf(e.pkt) as nat}, e.now);
            if AllSeen(p'.seen, |g.frags|) then
              && Step(o, m, e).1.Delivered?
              && Step(o, m, e).1.netPkt == g.p.fragment.value
              && IsFragment(g, Step(o, m, e).1.first, 0)
              && IdOf(endpoint, g) !in Step(o, m, e).0
            else Incomplete(g, p') && Step(o, m, e).1.Stored? && Collecting(o, Step(o, m, e).0, endpoint, g, p')
  {
    hide Reassembled;
    hide Key;
    hide Join;
    hide IsFragment;
    var k, i := IdOf(endpoint, g), IndexOf(e.pkt);
    var p' := Progress(p.seen + {i as nat}, e.now);
    FragmentOf(g, e.pkt, i);
    Covers(p.seen, |g.frags|);
    Covers(p'.seen, |g.frags|);
    assert |p'.seen| == |p.seen| + 1;
    var pp := Target(m, k, CountOf(e.pkt));
    assert |pp.fragments| == |g.frags| && pp.nReceived == |p.seen| && pp.fragments[i] == EMPTY;
    var slots := pp.fragments[i := e.pkt];
    assert forall j :: 0 <= j < |slots| ==> if j in p'.seen then IsFragment(g, slots[j], j) else slots[j] == EMPTY;
    if AllSeen(p'.seen, |g.frags|) {
      CollectedGivesPacket(g, slots);
    }
  }

  lemma CollectingStep(o: Options, m: Partials, endpoint: u64, g: Message, p: Progress, e: Event)
    requires IsMessage(g) && |g.frags| <= o.nMaxFragments && Enabled(m, e)
    requires Collecting(o, m, endpoint, g, p) && Incomplete(g, p)
    requires Addressed(IdOf(endpoint, g), e) ==> IsFragment(g, e.pkt, IndexOf(e.pkt))
    requires p.seen != {} ==> e.now < p.last + o.reassemblyTimeout
    requires !AllSeen(Advanced(IdOf(endpoint, g), p, e).seen, |g.frags|)
    ensures Collecting(o, Step(o, m, e).0, endpoint, g, Advanced(IdOf(endpoint, g), p, e))
    ensures Incomplete(g, Advanced(IdOf(endpoint, g), p, e))
  {
    hide Collecting;
    hide Step;
    hide Fragmented;
    hide Key;
    hide IsFragment;
    if IsNew(IdOf(endpoint, g), p, e) {
      OneMore(o, m, endpoint, g, p, e);
    } else {
      NothingNew(o, m, endpoint, g, p, e);
    }
  }

  lemma {:induction false} CollectingBefore(o: Options, m: Partials, es: seq<Event>, n: nat, endpoint: u64, g: Message,
                                            j: nat)
    requires IsMessage(g) && |g.frags| <= o.nMaxFragments && IdOf(endpoint, g) !in m
    requires IsRun(o, m, es) && Undisturbed(endpoint, g, es)
    requires j <= n < |es| && Timely(o, IdOf(endpoint, g), es, n + 1)
    requires IsNew(IdOf(endpoint, g), ProgressOf(IdOf(endpoint, g), es, n), es[n])
    requires !AllSeen(ProgressOf(IdOf(endpoint, g), es, j).seen, |g.frags|)
    ensures Collecting(o, Before(o, m, es, j), endpoint, g, ProgressOf(IdOf(endpoint, g), es, j))
    ensures Incomplete(g, ProgressOf(IdOf(endpoint, g), es, j))
  {
    hide Collecting;
    hide Step;
    hide IsMessage;
    hide Key;
    hide IsFragment;
    hide Timely;
    hide Addressed;
    hide IsNew;
    hide InTimeOrder;
    var k := IdOf(endpoint, g);
    if j == 0 {
      CollectingNothing(o, m, endpoint, g);
    } else {
      var p := ProgressOf(k, es, j - 1);
      Grows(k, p, es[j - 1]);
      CollectingBefore(o, m, es, n, endpoint, g, j - 1);
      if p.seen != {} {
        NeverLate(o, k, es, n, j - 1);
      }
      CollectingStep(o, Before(o, m, es, j - 1), endpoint, g, p, es[j - 1]);
    }
  }

  lemma Grows(k: Id, p: Progress, e: Event)
    ensures p.seen <= Advanced(k, p, e).seen
  {
  }

  lemma CollectingNothing(o: Options, m: Partials, endpoint: u64, g: Message)
    requires IdOf(endpoint, g) !in m
    ensures Collecting(o, m, endpoint, g, Progress({}, 0))
  {
  }

  /** Fragment, then reassemble. Whatever else arrives or times out in between, in whatever order
      and however often the fragments of a message arrive: when the last missing one arrives, the
      original octets are delivered with the header of the first fragment, and nothing of the
      message is kept. */
  lemma Completeness(o: Options, m: Partials, es: seq<Event>, n: nat, endpoint: u64, g: Message)
    requires IsMessage(g) && |g.frags| <= o.nMaxFragments && IdOf(endpoint, g) !in m
    requires IsRun(o, m, es) && Undisturbed(endpoint, g, es)
    requires n < |es| && Timely(o, IdOf(endpoint, g), es, n + 1)
    requires !AllSeen(ProgressOf(IdOf(endpoint, g), es, n).seen, |g.frags|)
    requires AllSeen(ProgressOf(IdOf(endpoint, g), es, n + 1).seen, |g.frags|)
    ensures var r := Step(o, Before(o, m, es, n), es[n]).1;
            && r.Delivered? && r.netPkt == g.p.fragment.value
            && IsFragment(g, r.first, 0)
            && IdOf(endpoint, g) !in Before(o, m, es, n + 1)
  {
    hide Collecting;
    hide Step;
    hide Fragmented;
    hide Key;
    hide IsFragment;
    CollectingBefore(o, m, es, n, endpoint, g, n);
    OneMore(o, Before(o, m, es, n), endpoint, g, ProgressOf(IdOf(endpoint, g), es, n), es[n]);
  }
}
