/** What the counters and signals of the send window mean in terms of the events of a run. */
module WindowFacts {
  import opened Basics
  import opened LpPackets
  import opened TxWindow
  import opened WindowRuns

  /** A network packet as it was handed to handleOutgoing. */
  datatype Entry = Entry(pkt: LpPacket, isInterest: bool)

  /** The network packets handed over with at least one fragment, in order. */
  function Entered(events: seq<Event>): seq<Entry>
    decreases |events|
  {
    if events == [] then []
    else
      var e := events[|events| - 1];
      Entered(events[..|events| - 1])
      + (if e.Outgoing? && e.frags != [] then [Entry(e.pkt, e.isInterest)] else [])
  }

  /** The window remembers every network packet as it was handed over. */
  predicate NetsAre(nets: seq<Net>, entries: seq<Entry>) {
    && |nets| == |entries|
    && forall n :: 0 <= n < |nets| ==> nets[n].pkt == entries[n].pkt && nets[n].isInterest == entries[n].isInterest
  }

  predicate SameNets(a: seq<Net>, b: seq<Net>) {
    && |a| == |b|
    && forall n :: 0 <= n < |a| ==> a[n].pkt == b[n].pkt && a[n].isInterest == b[n].isInterest
  }

  /** Some fragment of network packet n has been transmitted again. */
  predicate WasRetried(log: seq<FragId>, n: nat) {
    exists t :: 0 <= t < |log| && log[t].net == n && log[t].first != t
  }

  /** Some fragment of network packet n has been transmitted at least k times. */
  predicate Transmitted(log: seq<FragId>, n: nat, k: nat) {
    exists t :: 0 <= t < |log| && log[t].net == n && Count(log, log[t]) >= k
  }

  predicate LogShape(s: State) {
    |s.log| == s.next && forall t :: 0 <= t < |s.log| ==> s.log[t].first <= t && s.log[t].net < |s.nets|
  }

  /** didRetx tells whether a fragment of the network packet was retransmitted. */
  predicate Retried(s: State) {
    forall n :: 0 <= n < |s.nets| ==> (s.nets[n].didRetx <==> WasRetried(s.log, n))
  }

  /** A network packet is given up only after some fragment of it was transmitted maxRetx + 1 times. */
  predicate Exhaustion(o: Options, s: State) {
    forall i :: 0 <= i < |s.exhausted| ==> Transmitted(s.log, s.exhausted[i], o.maxRetx + 1)
  }

  predicate Facts(o: Options, s: State) {
    LogShape(s) && Retried(s) && Exhaustion(o, s)
  }

  // ---- the log grows ----

  lemma RetriedAppend(log: seq<FragId>, x: FragId, n: nat)
    ensures WasRetried(log + [x], n) <==> WasRetried(log, n) || (x.net == n && x.first != |log|)
  {
    var l := log + [x];
    if WasRetried(log, n) {
      var t :| 0 <= t < |log| && log[t].net == n && log[t].first != t;
      assert l[t] == log[t];
    }
    if x.net == n && x.first != |log| {
      assert l[|log|] == x;
    }
  }

  lemma TransmittedAppend(log: seq<FragId>, x: FragId, n: nat, k: nat)
    requires Transmitted(log, n, k)
    ensures Transmitted(log + [x], n, k)
  {
    var t :| 0 <= t < |log| && log[t].net == n && Count(log, log[t]) >= k;
    CountAppend(log, x, log[t]);
    assert (log + [x])[t] == log[t];
  }

  lemma LogAppend(o: Options, s: State, s': State, x: FragId)
    requires Facts(o, s) && s'.log == s.log + [x] && s'.next == s.next + 1 && s'.exhausted == s.exhausted
    requires |s'.nets| == |s.nets| && x.first <= s.next && x.net < |s.nets|
    requires forall n :: 0 <= n < |s.nets| ==>
               (s'.nets[n].didRetx <==> s.nets[n].didRetx || (x.net == n && x.first != s.next))
    ensures Facts(o, s')
  {
    hide WasRetried;
    hide Transmitted;
    forall n | 0 <= n < |s.nets|
      ensures s'.nets[n].didRetx <==> WasRetried(s'.log, n)
    {
      RetriedAppend(s.log, x, n);
    }
    forall i | 0 <= i < |s'.exhausted|
      ensures Transmitted(s'.log, s'.exhausted[i], o.maxRetx + 1)
    {
      TransmittedAppend(s.log, x, s.exhausted[i], o.maxRetx + 1);
    }
  }

  // ---- the operations ----

  lemma TransmitFacts(o: Options, s: State, pkt: LpPacket)
    requires Facts(o, s) && s.nets != [] && !Full(s)
    ensures Facts(o, Transmit(s, pkt).s) && Transmit(s, pkt).s.nets == s.nets
  {
    hide WasRetried;
    hide Transmitted;
    LogAppend(o, s, Transmit(s, pkt).s, FragId(s.next, |s.nets| - 1));
  }

  lemma {:induction false} TransmitAllFacts(o: Options, s: State, pkts: seq<LpPacket>)
    requires Facts(o, s) && s.nets != [] && TransmitAll(s, pkts).Done?
    ensures Facts(o, TransmitAll(s, pkts).s) && TransmitAll(s, pkts).s.nets == s.nets
    decreases |pkts|
  {
    hide Facts;
    if pkts != [] {
      TransmitFacts(o, s, pkts[0]);
      TransmitAllFacts(o, Transmit(s, pkts[0]).s, pkts[1..]);
    }
  }

  lemma NewNetFacts(o: Options, s: State, net: Net)
    requires Facts(o, s) && !net.didRetx
    ensures Facts(o, s.(nets := s.nets + [net]))
  {
    assert !WasRetried(s.log, |s.nets|);
  }

  lemma OutgoingFacts(o: Options, s: State, frags: seq<LpPacket>, pkt: LpPacket, isInterest: bool, entries: seq<Entry>)
    requires Facts(o, s) && NetsAre(s.nets, entries) && HandleOutgoing(s, frags, pkt, isInterest).Done?
    ensures Facts(o, HandleOutgoing(s, frags, pkt, isInterest).s)
    ensures NetsAre(HandleOutgoing(s, frags, pkt, isInterest).s.nets,
                    entries + (if frags != [] then [Entry(pkt, isInterest)] else []))
  {
    hide Facts;
    hide TransmitAll;
    if frags != [] {
      NewNetFacts(o, s, Net(pkt, isInterest, false));
      TransmitAllFacts(o, s.(nets := s.nets + [Net(pkt, isInterest, false)]), frags);
    } else {
      assert entries + [] == entries;
    }
  }

  lemma GiveUpFacts(o: Options, s: State, i: nat)
    requires RunInv(o, s) && Facts(o, s) && i < |s.live| && s.live[i].retx >= o.maxRetx && s.live[i].net < |s.nets|
    ensures Facts(o, GiveUp(s, s.live[i].net))
  {
    hide WasRetried;
    hide Overtakings;
    hide Accounts;
    hide Drops;
    var f := s.live[i];
    assert Count(s.log, IdOf(f)) >= o.maxRetx + 1;
    CountPositive(s.log, IdOf(f));
  }

  lemma {:induction false} CountPositive<T>(s: seq<T>, x: T)
    requires Count(s, x) > 0
    ensures exists t :: 0 <= t < |s| && s[t] == x
  {
    if x !in s {
      CountNone(s, x);
    }
  }

  lemma LoseFacts(o: Options, s: State, i: nat)
    requires RunInv(o, s) && Facts(o, s) && i < |s.live| && Lose(o, s, i).Done?
    ensures Facts(o, Lose(o, s, i).s) && SameNets(s.nets, Lose(o, s, i).s.nets)
  {
    hide WasRetried;
    hide Transmitted;
    hide Without;
    hide TxsOf;
    hide Accounts;
    hide Drops;
    hide Overtakings;
    var f := s.live[i];
    if f.retx >= o.maxRetx {
      GiveUpFacts(o, s, i);
    } else {
      LogAppend(o, s, Retransmit(s, i), IdOf(f));
    }
  }

  lemma {:induction false} LoseAllFacts(o: Options, s: State, lost: seq<nat>)
    requires RunInv(o, s) && Facts(o, s) && LoseAll(o, s, lost).Done?
    ensures Facts(o, LoseAll(o, s, lost).s) && SameNets(s.nets, LoseAll(o, s, lost).s.nets)
    decreases |lost|
  {
    hide Facts;
    hide Lose;
    if lost != [] {
      match Find(s.live, lost[0])
      case None => LoseAllFacts(o, s, lost[1..]);
      case Some(i) =>
        LoseFacts(o, s, i);
        LoseRunInv(o, s, i);
        LoseAllFacts(o, Lose(o, s, i).s, lost[1..]);
    }
  }

  lemma AckedFacts(o: Options, s: State, i: nat)
    requires Facts(o, s) && i < |s.live| && s.live[i].net < |s.nets|
    ensures Facts(o, Acked(s, i)) && Acked(s, i).nets == s.nets
  {
    hide WasRetried;
    hide Transmitted;
    hide Without;
  }

  lemma AckFacts(o: Options, s: State, k: u64)
    requires RunInv(o, s) && Facts(o, s) && ProcessAck(o, s, k).Done?
    ensures Facts(o, ProcessAck(o, s, k).s) && SameNets(s.nets, ProcessAck(o, s, k).s.nets)
  {
    hide Facts;
    hide Overtakings;
    hide Retransmissions;
    hide Accounts;
    hide Drops;
    hide LoseAll;
    hide Without;
    if FindKey(s.live, k).Some? {
      var i := FindKey(s.live, k).value;
      AckedRunInv(o, s, i);
      AckedFacts(o, s, i);
      LoseAllFacts(o, Acked(s, i), LostAmong(o, Overtake(s.live, i), i));
    }
  }

  // ---- runs ----

  lemma StepFacts(o: Options, s: State, e: Event, entries: seq<Entry>)
    requires RunInv(o, s) && Facts(o, s) && NetsAre(s.nets, entries) && Step(o, s, e).Done?
    ensures Facts(o, Step(o, s, e).s)
    ensures NetsAre(Step(o, s, e).s.nets,
                    entries + (if e.Outgoing? && e.frags != [] then [Entry(e.pkt, e.isInterest)] else []))
  {
    hide Facts;
    hide Overtakings;
    hide Retransmissions;
    hide Accounts;
    hide Drops;
    hide Lose;
    hide ProcessAck;
    hide HandleOutgoing;
    assert entries + [] == entries;
    match e
    case Outgoing(frags, pkt, isInterest) => OutgoingFacts(o, s, frags, pkt, isInterest, entries);
    case AckField(k) => AckFacts(o, s, k);
    case Timeout(k) =>
      if FindKey(s.live, k).Some? {
        LoseFacts(o, s, FindKey(s.live, k).value);
      }
  }

  lemma {:induction false} EveryRunFacts(o: Options, events: seq<Event>, s: State)
    requires Reaches(o, events, s)
    ensures RunInv(o, s) && Facts(o, s) && NetsAre(s.nets, Entered(events))
    decreases |events|
  {
    hide RunInv;
    hide Facts;
    hide NetsAre;
    hide Step;
    EveryRun(o, events, s);
    if events == [] {
      NoFacts(o);
    } else {
      var n := |events| - 1;
      var p :| Reaches(o, events[..n], p) && Inv(p) && Step(o, p, events[n]) == Done(s);
      EveryRunFacts(o, events[..n], p);
      StepFacts(o, p, events[n], Entered(events[..n]));
    }
  }

  lemma NoFacts(o: Options)
    ensures Facts(o, INITIAL) && NetsAre(INITIAL.nets, [])
  {
  }

  /** The packets sent as Interests among those with the given numbers. */
  function SentAsInterest(entries: seq<Entry>, ids: seq<nat>): seq<nat>
    requires forall i :: 0 <= i < |ids| ==> ids[i] < |entries|
  {
    if ids == [] then []
    else SentAsInterest(entries, ids[..|ids| - 1])
         + (if entries[ids[|ids| - 1]].isInterest then [ids[|ids| - 1]] else [])
  }

  lemma {:induction false} InterestsSent(nets: seq<Net>, entries: seq<Entry>, ids: seq<nat>)
    requires NetsAre(nets, entries) && forall i :: 0 <= i < |ids| ==> ids[i] < |nets|
    ensures Interests(nets, ids) == SentAsInterest(entries, ids)
    decreases |ids|
  {
    if ids != [] {
      InterestsSent(nets, entries, ids[..|ids| - 1]);
    }
  }

  /** What the counters mean. In every run, the n-th network packet is the n-th one handed to
      handleOutgoing with fragments. It counts as exhausted only if some fragment of it was transmitted
      maxRetx + 1 times, no more and no fewer. It counts as acknowledged only if nothing of it was
      retransmitted, and as retransmitted only if something was. onDroppedInterest reports, once and in
      order, exactly the exhausted packets that were handed over as Interests. */
  lemma CountersMean(o: Options, events: seq<Event>, s: State)
    requires Reaches(o, events, s)
    ensures NetsAre(s.nets, Entered(events))
    ensures forall n :: n in s.exhausted ==>
              exists t :: 0 <= t < |s.log| && s.log[t].net == n && Count(s.log, s.log[t]) == o.maxRetx + 1
    ensures forall n :: n in s.acknowledged ==> !WasRetried(s.log, n)
    ensures forall n :: n in s.retransmitted ==> WasRetried(s.log, n)
    ensures forall i :: 0 <= i < |s.exhausted| ==> s.exhausted[i] < |Entered(events)|
    ensures s.dropped == SentAsInterest(Entered(events), s.exhausted)
  {
    hide WasRetried;
    hide Overtakings;
    EveryRunFacts(o, events, s);
    InterestsSent(s.nets, Entered(events), s.exhausted);
    forall n | n in s.exhausted
      ensures exists t :: 0 <= t < |s.log| && s.log[t].net == n && Count(s.log, s.log[t]) == o.maxRetx + 1
    {
      var i :| 0 <= i < |s.exhausted| && s.exhausted[i] == n;
      assert Transmitted(s.log, n, o.maxRetx + 1);
      var t :| 0 <= t < |s.log| && s.log[t].net == n && Count(s.log, s.log[t]) >= o.maxRetx + 1;
      assert Count(s.log, s.log[t]) <= o.maxRetx + 1;
    }
  }

  /** In every run: a fragment that is lost after at most maxRetx transmissions is transmitted again, if a
      TxSequence is free, and its packet is not given up; after maxRetx + 1 it is given up. */
  lemma RetransmittedFirst(o: Options, events: seq<Event>, s: State, i: nat)
    requires Reaches(o, events, s) && i < |s.live| && s.live[i].net < |s.nets|
    ensures var sent, r := Count(s.log, IdOf(s.live[i])), Lose(o, s, i);
            && 1 <= sent <= o.maxRetx + 1
            && (sent <= o.maxRetx && !Full(s) ==>
                  r.Done? && r.s.log == s.log + [IdOf(s.live[i])] && r.s.exhausted == s.exhausted
                  && r.s.resent == s.resent + [Numbered(s.live[i].pkt, s.next)])
            && (sent == o.maxRetx + 1 ==>
                  r.Done? && r.s.log == s.log && r.s.exhausted == s.exhausted + [s.live[i].net])
  {
    hide Overtakings;
    hide Accounts;
    hide Drops;
    hide Without;
    EveryRun(o, events, s);
  }

  // ---- which fragments an Ack loses ----

  /** In the window with the same transmission. */
  predicate StaysAs(live: seq<Frag>, tx: nat) {
    exists h :: 0 <= h < |live| && live[h].tx == tx
  }

  lemma LoseStays(o: Options, s: State, i: nat, tx: nat)
    requires RunInv(o, s) && i < |s.live| && Lose(o, s, i).Done? && tx < s.next
    ensures StaysAs(Lose(o, s, i).s.live, tx) <==> StaysAs(s.live, tx) && tx !in Gone(o, s, i)
  {
    hide Overtakings;
    hide Retransmissions;
    hide Accounts;
    hide Drops;
    LoseGone(o, s, i, tx);
  }

  /** A transmission stays through a batch of losses unless it is in the batch or its packet is given up. */
  lemma {:induction false} LoseAllStays(o: Options, s: State, lost: seq<nat>, j: nat)
    requires RunInv(o, s) && LoseAll(o, s, lost).Done? && j < |s.live|
    ensures StaysAs(LoseAll(o, s, lost).s.live, s.live[j].tx) <==>
            s.live[j].tx !in lost && s.live[j].net !in LoseAll(o, s, lost).s.exhausted
    decreases |lost|
  {
    hide Overtakings;
    hide Retransmissions;
    hide Drops;
    hide Without;
    var tx, net := s.live[j].tx, s.live[j].net;
    if lost == [] {
      assert net in NetsOf(s.live);
    } else if Find(s.live, lost[0]).None? {
      LoseAllStays(o, s, lost[1..], j);
      assert tx != lost[0];
      assert lost == [lost[0]] + lost[1..];
    } else {
      var i := Find(s.live, lost[0]).value;
      var s1 := Lose(o, s, i).s;
      LoseRunInv(o, s, i);
      LoseStays(o, s, i, tx);
      assert StaysAs(s.live, tx);
      assert lost == [lost[0]] + lost[1..];
      if StaysAs(s1.live, tx) {
        var h :| 0 <= h < |s1.live| && s1.live[h].tx == tx;
        SameNet(o, s, i, j, h);
        LoseAllStays(o, s1, lost[1..], h);
      } else {
        GoneForGood(o, s1, lost[1..], tx);
        LostOrEnded(o, s, i, j, lost[1..]);
      }
    }
  }

  lemma SameNet(o: Options, s: State, i: nat, j: nat, h: nat)
    requires RunInv(o, s) && i < |s.live| && j < |s.live| && Lose(o, s, i).Done?
    requires h < |Lose(o, s, i).s.live| && Lose(o, s, i).s.live[h].tx == s.live[j].tx
    ensures Lose(o, s, i).s.live[h].net == s.live[j].net
  {
    hide Overtakings;
    hide Retransmissions;
    hide Accounts;
    hide Drops;
    var f := Lose(o, s, i).s.live[h];
    assert f in Lose(o, s, i).s.live;
    WithoutMember(s.live, Gone(o, s, i), f);
    hide Without;
    assert f in s.live;
    var m :| 0 <= m < |s.live| && s.live[m] == f;
  }

  /** A transmission that has left does not come back. */
  lemma {:induction false} GoneForGood(o: Options, s: State, lost: seq<nat>, tx: nat)
    requires RunInv(o, s) && LoseAll(o, s, lost).Done? && tx < s.next && !StaysAs(s.live, tx)
    ensures !StaysAs(LoseAll(o, s, lost).s.live, tx)
    decreases |lost|
  {
    hide Overtakings;
    hide Retransmissions;
    hide Accounts;
    hide Drops;
    hide Lose;
    hide StaysAs;
    if lost != [] {
      match Find(s.live, lost[0])
      case None => GoneForGood(o, s, lost[1..], tx);
      case Some(i) =>
        LoseRunInv(o, s, i);
        LoseStays(o, s, i, tx);
        LoseNext(o, s, i);
        GoneForGood(o, Lose(o, s, i).s, lost[1..], tx);
    }
  }

  lemma LoseNext(o: Options, s: State, i: nat)
    requires Inv(s) && i < |s.live| && Lose(o, s, i).Done?
    ensures s.next <= Lose(o, s, i).s.next && s.exhausted <= Lose(o, s, i).s.exhausted
  {
  }

  lemma {:induction false} LoseAllEnds(o: Options, s: State, lost: seq<nat>)
    requires Inv(s) && LoseAll(o, s, lost).Done?
    ensures s.exhausted <= LoseAll(o, s, lost).s.exhausted
    decreases |lost|
  {
    hide Lose;
    if lost != [] {
      match Find(s.live, lost[0])
      case None => LoseAllEnds(o, s, lost[1..]);
      case Some(i) =>
        LoseInv(o, s, i);
        LoseNext(o, s, i);
        LoseAllEnds(o, Lose(o, s, i).s, lost[1..]);
    }
  }

  /** What leaves by the loss of fragment i is that fragment, or belongs to a packet given up. */
  lemma LostOrEnded(o: Options, s: State, i: nat, j: nat, rest: seq<nat>)
    requires RunInv(o, s) && i < |s.live| && j < |s.live| && Lose(o, s, i).Done? && s.live[j].tx in Gone(o, s, i)
    requires Inv(Lose(o, s, i).s) && LoseAll(o, Lose(o, s, i).s, rest).Done?
    ensures j == i || s.live[j].net in LoseAll(o, Lose(o, s, i).s, rest).s.exhausted
  {
    hide Overtakings;
    hide Retransmissions;
    hide Accounts;
    hide Drops;
    hide Without;
    LoseAllEnds(o, Lose(o, s, i).s, rest);
    if s.live[i].retx >= o.maxRetx {
      var m :| 0 <= m < |s.live| && s.live[m].net == s.live[i].net && s.live[m].tx == s.live[j].tx;
      assert s.live[i].net in Lose(o, s, i).s.exhausted;
    }
  }

  /** Exactly the fragments that this Ack overtakes for the lossThreshold-th time. */
  predicate LostBy(o: Options, s: State, i: nat, j: nat)
    requires i < |s.live| && j < |s.live|
  {
    j < i && Later(s.acks + [s.live[i].tx], s.live[j].tx) >= o.lossThreshold
  }

  /** Loss detection is exact: in every run, an Ack for the i-th oldest fragment takes another one out
      of the window exactly if that one is older and has now been overtaken lossThreshold times, or its
      packet is given up. */
  lemma AckLosesExactly(o: Options, events: seq<Event>, s: State, i: nat, j: nat)
    requires Reaches(o, events, s) && Inv(s) && i < |s.live| && j < |s.live| && i != j
    requires ProcessAck(o, s, Key(s.live[i].tx)).Done?
    ensures var s' := ProcessAck(o, s, Key(s.live[i].tx)).s;
            StaysAs(s'.live, s.live[j].tx) <==> !LostBy(o, s, i, j) && s.live[j].net !in s'.exhausted
  {
    hide Accounts;
    hide Drops;
    hide Retransmissions;
    hide Without;
    hide LoseAll;
    EveryRun(o, events, s);
    FindAt(s, i);
    AckedRunInv(o, s, i);
    AckedLive(s, i);
    var s1, over := Acked(s, i), Overtake(s.live, i);
    var h := if j < i then j else j - 1;
    LaterAppend(s.acks, s.live[i].tx, s.live[j].tx);
    LostAmongIs(o, over, i);
    var lost := LostAmong(o, over, i);
    assert s1.live[h].tx == s.live[j].tx && s1.live[h].net == s.live[j].net;
    LostIffOvertaken(o, over, i, j);
    LoseAllStays(o, s1, lost, h);
  }

  lemma LostIffOvertaken(o: Options, live: seq<Frag>, i: nat, j: nat)
    requires Ordered(live) && i < |live| && j < |live|
    ensures live[j].tx in LostAmong(o, live, i) <==> j < i && live[j].greater >= o.lossThreshold
  {
    LostAmongIs(o, live, i);
    var l := LostAmong(o, live, i);
    if live[j].tx in l {
      var a :| 0 <= a < |l| && l[a] == live[j].tx;
      var m :| 0 <= m < i && live[m].tx == l[a] && live[m].greater >= o.lossThreshold;
      assert m == j;
    }
  }

  // ---- the Acks of one packet ----

  function AckFields(ks: seq<u64>): (r: seq<Event>)
    ensures |r| == |ks| && forall i :: 0 <= i < |r| ==> r[i] == AckField(ks[i])
  {
    seq(|ks|, i requires 0 <= i < |ks| => AckField(ks[i]))
  }

  lemma ReachesNext(o: Options, events: seq<Event>, s: State, e: Event)
    requires Reaches(o, events, s) && Inv(s) && Step(o, s, e).Done?
    ensures Reaches(o, events + [e], Step(o, s, e).s)
  {
    hide Step;
    assert (events + [e])[..|events|] == events;
  }

  /** The Acks on one packet continue the run with one event each, in order. */
  lemma {:induction false} AcksAreEvents(o: Options, events: seq<Event>, s: State, ks: seq<u64>)
    requires Reaches(o, events, s) && Inv(s) && ProcessAcks(o, s, ks).Done?
    ensures Reaches(o, events + AckFields(ks), ProcessAcks(o, s, ks).s)
    decreases |ks|
  {
    hide ProcessAck;
    hide Inv;
    hide Reaches;
    if ks == [] {
      assert events + AckFields(ks) == events;
    } else {
      ProcessAckInv(o, s, ks[0]);
      ReachesNext(o, events, s, AckField(ks[0]));
      var more := events + [AckField(ks[0])];
      AcksAreEvents(o, more, ProcessAck(o, s, ks[0]).s, ks[1..]);
      assert more + AckFields(ks[1..]) == events + AckFields(ks);
    }
  }
}
