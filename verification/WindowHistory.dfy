/** What became of every fragment that the send window ever transmitted. */
module WindowHistory {
  import opened Basics
  import opened LpPackets
  import opened TxWindow
  import opened WindowRuns

  /** The log names each fragment by its first transmission, the window and the Acks agree with it. */
  predicate Logged(s: State) {
    && |s.log| == s.next
    && (forall t :: 0 <= t < |s.log| ==> s.log[t].first <= t && s.log[s.log[t].first] == s.log[t])
    && (forall i :: 0 <= i < |s.live| ==> s.live[i].tx < s.next && s.log[s.live[i].tx] == IdOf(s.live[i]))
    && (forall i :: 0 <= i < |s.acks| ==> s.acks[i] < s.next)
  }

  predicate InWindow(live: seq<Frag>, x: FragId) {
    exists i :: 0 <= i < |live| && IdOf(live[i]) == x
  }

  /** Some transmission of the fragment has been acknowledged. */
  predicate WasAcked(s: State, x: FragId) {
    exists i :: 0 <= i < |s.acks| && s.acks[i] < |s.log| && s.log[s.acks[i]] == x
  }

  predicate HasFate(s: State, x: FragId) {
    x.net in s.exhausted || InWindow(s.live, x) || WasAcked(s, x)
  }

  /** Every fragment ever transmitted is in the window, has been acknowledged, or belongs to a
      network packet that was given up. */
  predicate Fates(s: State) {
    forall t :: 0 <= t < |s.log| ==> HasFate(s, s.log[t])
  }

  /** sent lists the packets transmitted: each is the first transmission of its fragment with another
      TxSequence, and the window holds the latest one. */
  ghost predicate SentLog(s: State, sent: seq<LpPacket>) {
    && |sent| == |s.log| == s.next
    && (forall t :: 0 <= t < |sent| ==> s.log[t].first < |sent| && sent[t] == Numbered(sent[s.log[t].first], t))
    && (forall i :: 0 <= i < |s.live| ==> s.live[i].tx < |sent| && s.live[i].pkt == sent[s.live[i].tx])
  }

  ghost predicate History(s: State, sent: seq<LpPacket>) {
    Inv(s) && Logged(s) && Fates(s) && SentLog(s, sent)
  }

  /** A fragment keeps its fate when nothing is lost. */
  lemma FateKept(s: State, s': State, x: FragId)
    requires HasFate(s, x)
    requires s.log <= s'.log && s.acks <= s'.acks
    requires x.net in s.exhausted ==> x.net in s'.exhausted
    requires InWindow(s.live, x) ==> HasFate(s', x)
    ensures HasFate(s', x)
  {
    if WasAcked(s, x) {
      var i :| 0 <= i < |s.acks| && s.acks[i] < |s.log| && s.log[s.acks[i]] == x;
      assert s'.acks[i] == s.acks[i];
    }
  }

  lemma TransmitFates(s: State, pkt: LpPacket)
    requires Logged(s) && Fates(s) && s.nets != [] && !Full(s)
    ensures Fates(Transmit(s, pkt).s)
  {
    hide Numbered;
    var s' := Transmit(s, pkt).s;
    forall t | 0 <= t < |s'.log|
      ensures HasFate(s', s'.log[t])
    {
      if t < s.next {
        if InWindow(s.live, s.log[t]) {
          var i :| 0 <= i < |s.live| && IdOf(s.live[i]) == s.log[t];
          assert s'.live[i] == s.live[i];
        }
        FateKept(s, s', s.log[t]);
      } else {
        assert IdOf(s'.live[|s.live|]) == s'.log[t];
      }
    }
  }

  lemma TransmitHistory(s: State, pkt: LpPacket, sent: seq<LpPacket>)
    requires History(s, sent) && s.nets != [] && !Full(s)
    ensures History(Transmit(s, pkt).s, sent + [Numbered(pkt, s.next)])
  {
    hide Key;
    hide HasFate;
    TransmitInv(s, pkt);
    TransmitFates(s, pkt);
  }

  lemma AckedFates(s: State, i: nat)
    requires Inv(s) && Logged(s) && Fates(s) && i < |s.live|
    ensures Fates(Acked(s, i))
  {
    hide Without;
    hide TxsOf;
    AckedLive(s, i);
    var s' := Acked(s, i);
    assert s'.log == s.log && s'.exhausted == s.exhausted && s'.acks == s.acks + [s.live[i].tx];
    hide Acked;
    forall t | 0 <= t < |s'.log|
      ensures HasFate(s', s'.log[t])
    {
      if InWindow(s.live, s.log[t]) {
        var j :| 0 <= j < |s.live| && IdOf(s.live[j]) == s.log[t];
        if j == i {
          assert s'.log[s'.acks[|s.acks|]] == s.log[t];
        } else {
          assert IdOf(s'.live[if j < i then j else j - 1]) == s.log[t];
        }
      }
      FateKept(s, s', s.log[t]);
    }
  }

  lemma AckedHistory(s: State, i: nat, sent: seq<LpPacket>)
    requires History(s, sent) && i < |s.live|
    ensures History(Acked(s, i), sent)
  {
    hide Without;
    hide TxsOf;
    hide Numbered;
    hide HasFate;
    AckedLive(s, i);
    AckedFates(s, i);
  }

  lemma GiveUpFate(s: State, n: nat, x: FragId)
    requires Inv(s) && n < |s.nets| && HasFate(s, x)
    ensures HasFate(GiveUp(s, n), x)
  {
    hide Inv;
    hide TxsOf;
    hide Without;
    var s' := GiveUp(s, n);
    assert n in s'.exhausted && x.net in s.exhausted ==> x.net in s'.exhausted;
    if InWindow(s.live, x) {
      var j :| 0 <= j < |s.live| && IdOf(s.live[j]) == x;
      if x.net == n {
        assert s'.exhausted[|s.exhausted|] == n;
      } else {
        TxNotOf(s, n, j);
        WithoutMember(s.live, TxsOf(s.live, n), s.live[j]);
        var k :| 0 <= k < |s'.live| && s'.live[k] == s.live[j];
      }
    }
    FateKept(s, s', x);
  }

  lemma GiveUpHistory(s: State, n: nat, sent: seq<LpPacket>)
    requires History(s, sent) && n < |s.nets|
    ensures History(GiveUp(s, n), sent)
  {
    hide Numbered;
    hide Without;
    hide HasFate;
    hide TxsOf;
    var s' := GiveUp(s, n);
    WithoutInv(s, TxsOf(s.live, n));
    WithoutOrdered(s.live, TxsOf(s.live, n));
    forall t | 0 <= t < |s'.log|
      ensures HasFate(s', s'.log[t])
    {
      GiveUpFate(s, n, s.log[t]);
    }
  }

  lemma RetransmitFates(s: State, i: nat)
    requires Inv(s) && Logged(s) && Fates(s) && i < |s.live|
    ensures Fates(Retransmit(s, i))
  {
    hide Without;
    hide Numbered;
    RetransmitLive(s, i);
    var s' := Retransmit(s, i);
    forall t | 0 <= t < |s'.log|
      ensures HasFate(s', s'.log[t])
    {
      if t < s.next {
        if InWindow(s.live, s.log[t]) {
          var j :| 0 <= j < |s.live| && IdOf(s.live[j]) == s.log[t];
          assert IdOf(s'.live[if j < i then j else if j == i then |s.live| - 1 else j - 1]) == s.log[t];
        }
        FateKept(s, s', s.log[t]);
      } else {
        assert IdOf(s'.live[|s.live| - 1]) == s'.log[t];
      }
    }
  }

  lemma RetransmitLogged(s: State, i: nat)
    requires Inv(s) && Logged(s) && i < |s.live|
    ensures Logged(Retransmit(s, i))
  {
    hide Without;
    hide Numbered;
    RetransmitLive(s, i);
    assert s.log[s.live[i].tx] == IdOf(s.live[i]);
  }

  lemma RetransmitHistory(s: State, i: nat, sent: seq<LpPacket>)
    requires History(s, sent) && i < |s.live| && !Full(s)
    ensures History(Retransmit(s, i), sent + [Numbered(s.live[i].pkt, s.next)])
  {
    hide Key;
    hide Without;
    hide HasFate;
    RetransmitInv(s, i);
    RetransmitLive(s, i);
    RetransmitFates(s, i);
    RetransmitLogged(s, i);
    var f := s.live[i];
    assert s.log[f.tx] == IdOf(f);
    assert sent[f.tx] == Numbered(sent[f.origin], f.tx);
  }

  /** The packets transmitted between two states of the window. */
  function Since(s: State, s': State): seq<LpPacket>
    requires ResentGrows(s, s')
  {
    s'.resent[|s.resent|..]
  }

  /** Only fragments that were transmitted before are transmitted again. */
  predicate Repeats(log: seq<FragId>, log': seq<FragId>) {
    log <= log' && forall t :: 0 <= t < |log'| ==> log'[t] in log
  }

  lemma RepeatsTwice(a: seq<FragId>, b: seq<FragId>, c: seq<FragId>)
    requires Repeats(a, b) && Repeats(b, c)
    ensures Repeats(a, c)
  {
    forall t | 0 <= t < |c|
      ensures c[t] in a
    {
      var u :| 0 <= u < |b| && b[u] == c[t];
    }
  }

  lemma LoseHistory(o: Options, s: State, i: nat, sent: seq<LpPacket>)
    requires History(s, sent) && i < |s.live| && Lose(o, s, i).Done?
    ensures ResentGrows(s, Lose(o, s, i).s)
    ensures History(Lose(o, s, i).s, sent + Since(s, Lose(o, s, i).s))
    ensures Lose(o, s, i).s.acks == s.acks && |Lose(o, s, i).s.nets| == |s.nets|
    ensures Repeats(s.log, Lose(o, s, i).s.log)
  {
    assert s.log[s.live[i].tx] == IdOf(s.live[i]);
    hide Logged;
    hide Fates;
    hide SentLog;
    hide Without;
    if s.live[i].retx >= o.maxRetx {
      GiveUpHistory(s, s.live[i].net, sent);
      assert sent + Since(s, Lose(o, s, i).s) == sent;
    } else {
      RetransmitHistory(s, i, sent);
    }
  }

  lemma {:induction false} LoseAllHistory(o: Options, s: State, lost: seq<nat>, sent: seq<LpPacket>)
    requires History(s, sent) && LoseAll(o, s, lost).Done?
    ensures ResentGrows(s, LoseAll(o, s, lost).s)
    ensures History(LoseAll(o, s, lost).s, sent + Since(s, LoseAll(o, s, lost).s))
    ensures LoseAll(o, s, lost).s.acks == s.acks && |LoseAll(o, s, lost).s.nets| == |s.nets|
    ensures Repeats(s.log, LoseAll(o, s, lost).s.log)
    decreases |lost|
  {
    hide Logged;
    hide Fates;
    hide SentLog;
    hide Lose;
    if lost == [] {
      assert sent + Since(s, s) == sent;
    } else if Find(s.live, lost[0]).None? {
      LoseAllHistory(o, s, lost[1..], sent);
    } else {
      var i := Find(s.live, lost[0]).value;
      var s1 := Lose(o, s, i).s;
      LoseHistory(o, s, i, sent);
      LoseAllHistory(o, s1, lost[1..], sent + Since(s, s1));
      var s2 := LoseAll(o, s, lost).s;
      assert sent + Since(s, s1) + Since(s1, s2) == sent + Since(s, s2);
      RepeatsTwice(s.log, s1.log, s2.log);
    }
  }

  /** An Ack that matches no transmission in the window changes nothing. Otherwise exactly that
      transmission is acknowledged. */
  lemma AckHistory(o: Options, s: State, k: u64, sent: seq<LpPacket>)
    requires History(s, sent) && ProcessAck(o, s, k).Done?
    ensures ResentGrows(s, ProcessAck(o, s, k).s)
    ensures History(ProcessAck(o, s, k).s, sent + Since(s, ProcessAck(o, s, k).s))
    ensures |ProcessAck(o, s, k).s.nets| == |s.nets| && Repeats(s.log, ProcessAck(o, s, k).s.log)
    ensures match FindKey(s.live, k)
            case None => ProcessAck(o, s, k).s == s
            case Some(i) => ProcessAck(o, s, k).s.acks == s.acks + [s.live[i].tx]
  {
    hide Logged;
    hide Fates;
    hide SentLog;
    hide LoseAll;
    hide Without;
    if FindKey(s.live, k).None? {
      assert sent + Since(s, s) == sent;
    } else {
      var i := FindKey(s.live, k).value;
      AckedHistory(s, i, sent);
      var lost := LostAmong(o, Overtake(s.live, i), i);
      LoseAllHistory(o, Acked(s, i), lost, sent);
    }
  }

  lemma {:induction false} TransmitAllHistory(s: State, pkts: seq<LpPacket>, sent: seq<LpPacket>)
    requires History(s, sent) && s.nets != [] && TransmitAll(s, pkts).Done?
    ensures History(TransmitAll(s, pkts).s, sent + NumberedAll(pkts, s.next))
    ensures TransmitAll(s, pkts).s.log == s.log + FirstLog(s.next, |s.nets| - 1, |pkts|)
    ensures TransmitAll(s, pkts).s.next == s.next + |pkts|
    ensures var s' := TransmitAll(s, pkts).s; s' == s.(next := s'.next, live := s'.live, log := s'.log)
    decreases |pkts|
  {
    hide Logged;
    hide Fates;
    hide SentLog;
    hide Key;
    if pkts == [] {
      assert sent + NumberedAll(pkts, s.next) == sent;
    } else {
      var s1 := Transmit(s, pkts[0]).s;
      TransmitHistory(s, pkts[0], sent);
      var sent1 := sent + [Numbered(pkts[0], s.next)];
      TransmitAllHistory(s1, pkts[1..], sent1);
      assert sent1 + NumberedAll(pkts[1..], s.next + 1) == sent + NumberedAll(pkts, s.next);
      assert s1.log + FirstLog(s.next + 1, |s.nets| - 1, |pkts| - 1) == s.log + FirstLog(s.next, |s.nets| - 1, |pkts|);
    }
  }

  /** The packets with TxSequences from the n-th on. */
  function NumberedAll(pkts: seq<LpPacket>, n: nat): (r: seq<LpPacket>)
    ensures |r| == |pkts|
  {
    seq(|pkts|, i requires 0 <= i < |pkts| => Numbered(pkts[i], n + i))
  }

  function FirstLog(next: nat, net: nat, n: nat): (r: seq<FragId>) {
    seq(n, i requires 0 <= i < n => FragId(next + i, net))
  }

  lemma NewNetHistory(s: State, net: Net, sent: seq<LpPacket>)
    requires History(s, sent)
    ensures History(s.(nets := s.nets + [net]), sent)
  {
    var s' := s.(nets := s.nets + [net]);
    forall t | 0 <= t < |s'.log|
      ensures HasFate(s', s'.log[t])
    {
      FateKept(s, s', s.log[t]);
    }
  }

  /** A network packet enters the window. */
  lemma OutgoingHistory(s: State, pkts: seq<LpPacket>, pkt: LpPacket, isInterest: bool, sent: seq<LpPacket>)
    requires History(s, sent) && pkts != [] && HandleOutgoing(s, pkts, pkt, isInterest).Done?
    ensures var s' := HandleOutgoing(s, pkts, pkt, isInterest).s;
            && History(s', sent + NumberedAll(pkts, s.next))
            && s'.log == s.log + FirstLog(s.next, |s.nets|, |pkts|)
            && s'.acks == s.acks && |s'.nets| == |s.nets| + 1 && s'.next == s.next + |pkts|
  {
    hide History;
    hide TransmitAll;
    var s1 := s.(nets := s.nets + [Net(pkt, isInterest, false)]);
    NewNetHistory(s, Net(pkt, isInterest, false), sent);
    TransmitAllHistory(s1, pkts, sent);
  }

  /** A network packet that counts as acknowledged, at once or after retransmissions, was
      acknowledged fragment by fragment. */
  lemma CompleteIsAcked(o: Options, s: State, sent: seq<LpPacket>, t: nat)
    requires History(s, sent) && RunInv(o, s) && t < |s.log|
    requires s.log[t].net in s.acknowledged || s.log[t].net in s.retransmitted
    ensures WasAcked(s, s.log[t])
  {
    hide Overtakings;
    hide Retransmissions;
    hide Drops;
    var x := s.log[t];
    assert HasFate(s, x);
    assert forall i :: 0 <= i < |s.live| ==> s.live[i].net in NetsOf(s.live);
  }
}
