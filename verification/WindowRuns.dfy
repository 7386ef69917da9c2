/** What every step of the send window keeps, and what therefore holds in every run. */
module WindowRuns {
  import opened Basics
  import opened LpPackets
  import opened TxWindow

  // ---- counting ----

  function Count<T(==)>(s: seq<T>, x: T): nat {
    if s == [] then 0 else Count(s[..|s| - 1], x) + (if s[|s| - 1] == x then 1 else 0)
  }

  lemma CountAppend<T>(s: seq<T>, y: T, x: T)
    ensures Count(s + [y], x) == Count(s, x) + (if y == x then 1 else 0)
  {
    assert (s + [y])[..|s|] == s;
  }

  /** How many acknowledged transmissions are later than tx. */
  function Later(acks: seq<nat>, tx: nat): nat {
    if acks == [] then 0 else Later(acks[..|acks| - 1], tx) + (if acks[|acks| - 1] > tx then 1 else 0)
  }

  lemma LaterAppend(acks: seq<nat>, a: nat, tx: nat)
    ensures Later(acks + [a], tx) == Later(acks, tx) + (if a > tx then 1 else 0)
  {
    assert (acks + [a])[..|acks|] == acks;
  }

  lemma {:induction false} LaterNone(acks: seq<nat>, tx: nat)
    requires forall i :: 0 <= i < |acks| ==> acks[i] <= tx
    ensures Later(acks, tx) == 0
  {
    if acks != [] {
      LaterNone(acks[..|acks| - 1], tx);
    }
  }

  lemma {:induction false} CountNone<T>(s: seq<T>, x: T)
    requires x !in s
    ensures Count(s, x) == 0
  {
    if s != [] {
      CountNone(s[..|s| - 1], x);
    }
  }

  // ---- the invariants ----

  /** The overtaking counter of a fragment is the number of Acks for later transmissions. */
  predicate Overtakings(s: State) {
    && (forall i :: 0 <= i < |s.live| ==> s.live[i].greater == Later(s.acks, s.live[i].tx))
    && (forall i :: 0 <= i < |s.acks| ==> s.acks[i] < s.next)
  }

  /** Below the loss threshold. */
  predicate NotLost(o: Options, s: State) {
    forall i :: 0 <= i < |s.live| ==> s.live[i].greater < o.lossThreshold
  }

  /** Each fragment has been transmitted once more than its counter says, never more than
      maxRetx + 1 times, and no fragment is in the window twice. */
  ghost predicate Retransmissions(o: Options, s: State) {
    && (forall i, j :: 0 <= i < j < |s.live| ==> s.live[i].origin != s.live[j].origin)
    && (forall i :: 0 <= i < |s.live| ==>
          s.live[i].origin < s.next && s.live[i].retx + 1 == Count(s.log, IdOf(s.live[i])))
    && (forall t :: 0 <= t < |s.log| ==> s.log[t].first < s.next)
    && (forall x :: Count(s.log, x) <= o.maxRetx + 1)
  }

  /** A list of distinct network packets, none of them in flight. */
  predicate Ended(s: State, ids: seq<nat>) {
    NoDuplicates(ids) && forall n :: n in ids ==> n < |s.nets| && n !in NetsOf(s.live)
  }

  /** Each network packet is in flight or has ended in exactly one way. */
  predicate Accounts(s: State) {
    && Ended(s, s.acknowledged) && Ended(s, s.retransmitted) && Ended(s, s.exhausted)
    && |s.nets| == |NetsOf(s.live)| + |s.acknowledged| + |s.retransmitted| + |s.exhausted|
    && (forall n :: n in s.acknowledged ==> n !in s.exhausted && !s.nets[n].didRetx)
    && (forall n :: n in s.retransmitted ==> n !in s.exhausted && s.nets[n].didRetx)
  }

  /** The Interests among the given network packets. */
  function Interests(nets: seq<Net>, ids: seq<nat>): seq<nat>
    requires forall i :: 0 <= i < |ids| ==> ids[i] < |nets|
  {
    if ids == [] then []
    else Interests(nets, ids[..|ids| - 1])
         + (if nets[ids[|ids| - 1]].isInterest then [ids[|ids| - 1]] else [])
  }

  /** onDroppedInterest fires once for each Interest that is given up, in order, and for no other. */
  predicate Drops(s: State) {
    && (forall i :: 0 <= i < |s.exhausted| ==> s.exhausted[i] < |s.nets|)
    && s.dropped == Interests(s.nets, s.exhausted)
  }

  ghost predicate RunInv(o: Options, s: State) {
    Inv(s) && Overtakings(s) && Retransmissions(o, s) && Accounts(s) && Drops(s)
  }

  // ---- first transmission ----

  lemma TransmitOvertakings(s: State, pkt: LpPacket)
    requires Inv(s) && Overtakings(s) && s.nets != [] && !Full(s)
    ensures Overtakings(Transmit(s, pkt).s)
  {
    LaterNone(s.acks, s.next);
  }

  lemma TransmitRetransmissions(o: Options, s: State, pkt: LpPacket)
    requires Inv(s) && Retransmissions(o, s) && s.nets != [] && !Full(s)
    ensures Retransmissions(o, Transmit(s, pkt).s)
  {
    var x := FragId(s.next, |s.nets| - 1);
    CountNone(s.log, x);
    forall y: FragId
      ensures Count(s.log + [x], y) == Count(s.log, y) + (if x == y then 1 else 0)
    {
      CountAppend(s.log, x, y);
    }
  }

  lemma NetsOfAppend(live: seq<Frag>, f: Frag)
    ensures NetsOf(live + [f]) == NetsOf(live) + {f.net}
  {
    var l := live + [f];
    assert l[|live|] == f;
    forall n | n in NetsOf(live)
      ensures n in NetsOf(l)
    {
      var i :| 0 <= i < |live| && live[i].net == n;
      assert l[i] == live[i];
    }
  }

  /** A further fragment of the newest network packet. */
  lemma TransmitAccounts(s: State, pkt: LpPacket)
    requires Inv(s) && Accounts(s) && s.nets != [] && !Full(s) && |s.nets| - 1 in NetsOf(s.live)
    ensures Accounts(Transmit(s, pkt).s)
    ensures |s.nets| - 1 in NetsOf(Transmit(s, pkt).s.live)
  {
    var f := Frag(s.next, s.next, |s.nets| - 1, Numbered(pkt, s.next), 0, 0);
    NetsOfAppend(s.live, f);
    assert NetsOf(s.live) + {f.net} == NetsOf(s.live);
    hide NetsOf;
  }

  /** The first fragment of a new network packet. */
  lemma StartAccounts(s: State, net: Net, pkt: LpPacket)
    requires Inv(s) && Accounts(s) && !Full(s) && !net.didRetx
    ensures var s' := Transmit(s.(nets := s.nets + [net]), pkt).s;
            Accounts(s') && |s.nets| in NetsOf(s'.live)
  {
    var s1 := s.(nets := s.nets + [net]);
    var f := Frag(s.next, s.next, |s.nets|, Numbered(pkt, s.next), 0, 0);
    NetsOfAppend(s.live, f);
    assert |s.nets| !in NetsOf(s.live);
  }

  lemma {:induction false} InterestsSame(a: seq<Net>, b: seq<Net>, ids: seq<nat>)
    requires |a| <= |b| && forall i :: 0 <= i < |ids| ==> ids[i] < |a|
    requires forall i :: 0 <= i < |a| ==> a[i].isInterest == b[i].isInterest
    ensures Interests(a, ids) == Interests(b, ids)
  {
    if ids != [] {
      InterestsSame(a, b, ids[..|ids| - 1]);
    }
  }

  // ---- acknowledgement ----

  /** Overtaking and acknowledgement together. */
  function Acked(s: State, i: nat): State
    requires i < |s.live| && s.live[i].net < |s.nets|
  {
    Acknowledge(s.(live := Overtake(s.live, i)), i)
  }

  /** The window after an acknowledgement. */
  lemma AckedLive(s: State, i: nat)
    requires Inv(s) && i < |s.live|
    ensures Inv(Acked(s, i))
    ensures |Acked(s, i).live| == |s.live| - 1
    ensures forall j :: 0 <= j < i ==> Acked(s, i).live[j] == Overtaken(s.live[j])
    ensures forall j :: i <= j < |s.live| - 1 ==> Acked(s, i).live[j] == s.live[j + 1]
  {
    OvertakeInv(s, i);
    AcknowledgeInv(s.(live := Overtake(s.live, i)), i);
    WithoutAt(Overtake(s.live, i), i);
  }

  lemma AckedOvertakings(s: State, i: nat)
    requires Inv(s) && Overtakings(s) && i < |s.live|
    ensures Overtakings(Acked(s, i))
  {
    AckedLive(s, i);
    var s' := Acked(s, i);
    assert s'.acks == s.acks + [s.live[i].tx] && s'.next == s.next;
    hide Acked;
    hide Later;
    forall j | 0 <= j < |s'.live|
      ensures s'.live[j].greater == Later(s'.acks, s'.live[j].tx)
    {
      LaterAppend(s.acks, s.live[i].tx, s'.live[j].tx);
    }
  }

  lemma AckedRetransmissions(o: Options, s: State, i: nat)
    requires Inv(s) && Retransmissions(o, s) && i < |s.live|
    ensures Retransmissions(o, Acked(s, i))
  {
    AckedLive(s, i);
  }

  /** Network packets in flight after the fragment at position i has left. */
  lemma NetsOfErased(live: seq<Frag>, l: seq<Frag>, i: nat)
    requires i < |live| && |l| == |live| - 1
    requires forall j :: 0 <= j < |l| ==> l[j].net == live[if j < i then j else j + 1].net
    ensures NetsOf(l) == if TxsOf(l, live[i].net) == {} then NetsOf(live) - {live[i].net} else NetsOf(live)
  {
    var n := live[i].net;
    forall m | m in NetsOf(live) && m != n
      ensures m in NetsOf(l)
    {
      var j :| 0 <= j < |live| && live[j].net == m;
      assert l[if j < i then j else j - 1].net == m;
    }
    if TxsOf(l, n) == {} {
      forall j | 0 <= j < |l|
        ensures l[j].net != n
      {
        assert l[j].tx !in TxsOf(l, n);
      }
    } else {
      var t :| t in TxsOf(l, n);
      var j :| 0 <= j < |l| && l[j].net == n && l[j].tx == t;
      assert n in NetsOf(l);
    }
  }

  lemma AckedNets(s: State, i: nat)
    requires Inv(s) && i < |s.live|
    ensures var n := s.live[i].net;
            NetsOf(Acked(s, i).live) == if TxsOf(Acked(s, i).live, n) == {} then NetsOf(s.live) - {n}
                                        else NetsOf(s.live)
  {
    hide Acked;
    AckedLive(s, i);
    NetsOfErased(s.live, Acked(s, i).live, i);
  }

  lemma AckedAccounts(s: State, i: nat)
    requires Inv(s) && Accounts(s) && i < |s.live|
    ensures Accounts(Acked(s, i))
  {
    AckedNets(s, i);
    assert s.live[i].net in NetsOf(s.live);
  }

  // ---- loss ----

  lemma GiveUpNets(s: State, n: nat)
    requires Inv(s) && n < |s.nets|
    ensures NetsOf(GiveUp(s, n).live) == NetsOf(s.live) - {n}
    ensures forall f :: f in GiveUp(s, n).live ==> f in s.live
  {
    var l := GiveUp(s, n).live;
    WithoutMembers(s.live, TxsOf(s.live, n));
    forall m | m in NetsOf(s.live) && m != n
      ensures m in NetsOf(l)
    {
      var j :| 0 <= j < |s.live| && s.live[j].net == m;
      TxNotOf(s, n, j);
      assert s.live[j] in l;
      var h :| 0 <= h < |l| && l[h] == s.live[j];
    }
    forall h | 0 <= h < |l|
      ensures l[h].net in NetsOf(s.live) && l[h].net != n
    {
      assert l[h] in l;
      var j :| 0 <= j < |s.live| && s.live[j] == l[h];
    }
  }

  lemma TxNotOf(s: State, n: nat, j: nat)
    requires Inv(s) && j < |s.live| && s.live[j].net != n
    ensures s.live[j].tx !in TxsOf(s.live, n)
  {
    assert forall h :: 0 <= h < |s.live| && s.live[h].tx == s.live[j].tx ==> h == j;
  }

  lemma GiveUpAccounts(s: State, i: nat)
    requires Inv(s) && Accounts(s) && i < |s.live|
    ensures Accounts(GiveUp(s, s.live[i].net))
  {
    hide TxsOf;
    hide Without;
    GiveUpNets(s, s.live[i].net);
    assert s.live[i].net in NetsOf(s.live);
  }

  lemma GiveUpDrops(s: State, n: nat)
    requires Drops(s) && n < |s.nets|
    ensures Drops(GiveUp(s, n))
  {
    hide TxsOf;
    hide Without;
    assert GiveUp(s, n).exhausted[..|s.exhausted|] == s.exhausted;
  }

  lemma GiveUpInv(o: Options, s: State, i: nat)
    requires RunInv(o, s) && i < |s.live|
    ensures RunInv(o, GiveUp(s, s.live[i].net))
  {
    hide TxsOf;
    hide Without;
    hide Accounts;
    hide Drops;
    hide Retransmissions;
    hide Overtakings;
    var n := s.live[i].net;
    WithoutInv(s, TxsOf(s.live, n));
    GiveUpNets(s, n);
    GiveUpKept(o, s, GiveUp(s, n));
    GiveUpAccounts(s, i);
    GiveUpDrops(s, n);
  }

  /** Removing fragments disturbs neither the overtaking counters nor the retransmission counters. */
  lemma GiveUpKept(o: Options, s: State, s': State)
    requires Overtakings(s) && Retransmissions(o, s)
    requires s'.acks == s.acks && s'.log == s.log && s'.next == s.next
    requires Ordered(s'.live) && forall f :: f in s'.live ==> f in s.live
    ensures Overtakings(s') && Retransmissions(o, s')
  {
    forall h | 0 <= h < |s'.live|
      ensures exists j :: 0 <= j < |s.live| && s.live[j] == s'.live[h]
    {
      assert s'.live[h] in s'.live;
    }
  }

  /** The window after a retransmission. */
  lemma RetransmitLive(s: State, i: nat)
    requires Inv(s) && i < |s.live|
    ensures var l := Retransmit(s, i).live;
            && |l| == |s.live|
            && (forall j :: 0 <= j < i ==> l[j] == s.live[j])
            && (forall j :: i <= j < |s.live| - 1 ==> l[j] == s.live[j + 1])
            && l[|s.live| - 1] == Frag(s.next, s.live[i].origin, s.live[i].net, Numbered(s.live[i].pkt, s.next),
                                       s.live[i].retx + 1, 0)
  {
    WithoutAt(s.live, i);
  }

  lemma RetransmitOvertakings(s: State, i: nat)
    requires Inv(s) && Overtakings(s) && i < |s.live|
    ensures Overtakings(Retransmit(s, i))
  {
    RetransmitLive(s, i);
    LaterNone(s.acks, s.next);
  }

  lemma RetransmitRetransmissions(o: Options, s: State, i: nat)
    requires Inv(s) && Retransmissions(o, s) && i < |s.live| && s.live[i].retx < o.maxRetx
    ensures Retransmissions(o, Retransmit(s, i))
  {
    RetransmitLive(s, i);
    var s' := Retransmit(s, i);
    forall x: FragId
      ensures Count(s'.log, x) == Count(s.log, x) + (if x == IdOf(s.live[i]) then 1 else 0)
    {
      CountAppend(s.log, IdOf(s.live[i]), x);
    }
  }

  lemma RetransmitNets(s: State, i: nat)
    requires Inv(s) && i < |s.live|
    ensures NetsOf(Retransmit(s, i).live) == NetsOf(s.live)
  {
    RetransmitLive(s, i);
    var l := Retransmit(s, i).live;
    forall j | 0 <= j < |s.live|
      ensures s.live[j].net in NetsOf(l)
    {
      assert l[if j < i then j else if j == i then |s.live| - 1 else j - 1].net == s.live[j].net;
    }
    forall j | 0 <= j < |l|
      ensures l[j].net in NetsOf(s.live)
    {
      assert l[j].net == s.live[if j < i then j else if j == |s.live| - 1 then i else j + 1].net;
    }
  }

  lemma RetransmitRunInv(o: Options, s: State, i: nat)
    requires RunInv(o, s) && i < |s.live| && s.live[i].retx < o.maxRetx && !Full(s)
    ensures RunInv(o, Retransmit(s, i))
  {
    RetransmitInv(s, i);
    RetransmitOvertakings(s, i);
    RetransmitRetransmissions(o, s, i);
    RetransmitNets(s, i);
    assert s.live[i].net in NetsOf(s.live);
    InterestsSame(s.nets, Retransmit(s, i).nets, s.exhausted);
  }

  lemma LoseRunInv(o: Options, s: State, i: nat)
    requires RunInv(o, s) && i < |s.live|
    ensures Lose(o, s, i).Done? ==> RunInv(o, Lose(o, s, i).s)
  {
    if s.live[i].retx >= o.maxRetx {
      GiveUpInv(o, s, i);
    } else if !Full(s) {
      RetransmitRunInv(o, s, i);
    }
  }

  lemma {:induction false} LoseAllRunInv(o: Options, s: State, lost: seq<nat>)
    requires RunInv(o, s)
    ensures LoseAll(o, s, lost).Done? ==> RunInv(o, LoseAll(o, s, lost).s)
    decreases |lost|
  {
    if lost != [] {
      match Find(s.live, lost[0])
      case None => LoseAllRunInv(o, s, lost[1..]);
      case Some(i) =>
        LoseRunInv(o, s, i);
        if Lose(o, s, i).Done? {
          LoseAllRunInv(o, Lose(o, s, i).s, lost[1..]);
        }
    }
  }

  lemma AckedRunInv(o: Options, s: State, i: nat)
    requires RunInv(o, s) && i < |s.live|
    ensures RunInv(o, Acked(s, i))
  {
    AckedLive(s, i);
    AckedOvertakings(s, i);
    AckedRetransmissions(o, s, i);
    AckedAccounts(s, i);
  }

  lemma AckRunInv(o: Options, s: State, k: u64)
    requires RunInv(o, s)
    ensures ProcessAck(o, s, k).Done? ==> RunInv(o, ProcessAck(o, s, k).s)
  {
    match FindKey(s.live, k)
    case None =>
    case Some(i) =>
      AckedRunInv(o, s, i);
      LoseAllRunInv(o, Acked(s, i), LostAmong(o, Overtake(s.live, i), i));
  }

  lemma TransmitRunInv(o: Options, s: State, pkt: LpPacket)
    requires RunInv(o, s) && s.nets != [] && !Full(s) && |s.nets| - 1 in NetsOf(s.live)
    ensures RunInv(o, Transmit(s, pkt).s) && |s.nets| - 1 in NetsOf(Transmit(s, pkt).s.live)
  {
    TransmitInv(s, pkt);
    TransmitOvertakings(s, pkt);
    TransmitRetransmissions(o, s, pkt);
    TransmitAccounts(s, pkt);
  }

  lemma {:induction false} TransmitAllRunInv(o: Options, s: State, pkts: seq<LpPacket>)
    requires RunInv(o, s) && s.nets != [] && |s.nets| - 1 in NetsOf(s.live)
    ensures TransmitAll(s, pkts).Done? ==> RunInv(o, TransmitAll(s, pkts).s)
    decreases |pkts|
  {
    if pkts != [] && !Full(s) {
      TransmitRunInv(o, s, pkts[0]);
      TransmitAllRunInv(o, Transmit(s, pkts[0]).s, pkts[1..]);
    }
  }

  lemma NetAddedRun(o: Options, s: State, net: Net)
    requires Overtakings(s) && Retransmissions(o, s)
    ensures Overtakings(s.(nets := s.nets + [net])) && Retransmissions(o, s.(nets := s.nets + [net]))
  {
  }

  lemma OutgoingRunInv(o: Options, s: State, frags: seq<LpPacket>, pkt: LpPacket, isInterest: bool)
    requires RunInv(o, s)
    ensures var r := HandleOutgoing(s, frags, pkt, isInterest); r.Done? ==> RunInv(o, r.s)
  {
    hide Overtakings;
    hide Retransmissions;
    hide Accounts;
    if frags != [] && !Full(s) {
      var net := Net(pkt, isInterest, false);
      var s1 := s.(nets := s.nets + [net]);
      NetAddedRun(o, s, net);
      TransmitInv(s1, frags[0]);
      TransmitOvertakings(s1, frags[0]);
      TransmitRetransmissions(o, s1, frags[0]);
      StartAccounts(s, net, frags[0]);
      InterestsSame(s.nets, s1.nets, s.exhausted);
      TransmitAllRunInv(o, Transmit(s1, frags[0]).s, frags[1..]);
    }
  }

  // ---- after an Ack, no fragment is left that should count as lost ----

  lemma LoseLeaves(o: Options, s: State, i: nat, f: Frag)
    requires Inv(s) && i < |s.live| && Lose(o, s, i).Done? && f in Lose(o, s, i).s.live
    ensures f.greater == 0 || (f in s.live && f.tx != s.live[i].tx)
  {
    WithoutMember(s.live, Gone(o, s, i), f);
    assert s.live[i].tx in Gone(o, s, i);
  }

  lemma {:induction false} LoseAllLeaves(o: Options, s: State, lost: seq<nat>, f: Frag)
    requires Inv(s) && LoseAll(o, s, lost).Done? && f in LoseAll(o, s, lost).s.live
    ensures f.greater == 0 || (f in s.live && f.tx !in lost)
    decreases |lost|
  {
    if lost != [] {
      match Find(s.live, lost[0])
      case None =>
        LoseAllLeaves(o, s, lost[1..], f);
      case Some(i) =>
        LoseInv(o, s, i);
        LoseAllLeaves(o, Lose(o, s, i).s, lost[1..], f);
        if f.greater != 0 {
          LoseLeaves(o, s, i, f);
        }
    }
  }

  lemma AckNotLost(o: Options, s: State, k: u64)
    requires Inv(s) && NotLost(o, s) && o.lossThreshold >= 1 && ProcessAck(o, s, k).Done?
    ensures NotLost(o, ProcessAck(o, s, k).s)
  {
    match FindKey(s.live, k)
    case None =>
    case Some(i) =>
      var s1 := s.(live := Overtake(s.live, i));
      var lost := LostAmong(o, s1.live, i);
      var s' := ProcessAck(o, s, k).s;
      OvertakeInv(s, i);
      AcknowledgeInv(s1, i);
      LostAmongIs(o, s1.live, i);
      forall h | 0 <= h < |s'.live|
        ensures s'.live[h].greater < o.lossThreshold
      {
        var f := s'.live[h];
        assert f in s'.live;
        LoseAllLeaves(o, Acknowledge(s1, i), lost, f);
        if f.greater != 0 {
          WithoutMember(s1.live, {s1.live[i].tx}, f);
          var j :| 0 <= j < |s1.live| && s1.live[j] == f;
        }
      }
  }

  lemma LoseNotLost(o: Options, s: State, i: nat)
    requires Inv(s) && NotLost(o, s) && o.lossThreshold >= 1 && i < |s.live| && Lose(o, s, i).Done?
    ensures NotLost(o, Lose(o, s, i).s)
  {
    var s' := Lose(o, s, i).s;
    forall h | 0 <= h < |s'.live|
      ensures s'.live[h].greater < o.lossThreshold
    {
      assert s'.live[h] in s'.live;
      LoseLeaves(o, s, i, s'.live[h]);
    }
  }

  lemma {:induction false} TransmitAllNotLost(o: Options, s: State, pkts: seq<LpPacket>)
    requires NotLost(o, s) && o.lossThreshold >= 1 && s.nets != []
    ensures TransmitAll(s, pkts).Done? ==> NotLost(o, TransmitAll(s, pkts).s)
    decreases |pkts|
  {
    if pkts != [] && !Full(s) {
      TransmitAllNotLost(o, Transmit(s, pkts[0]).s, pkts[1..]);
    }
  }

  // ---- runs ----

  /** What can happen to the send window: a network packet is sent, an Ack field arrives, or the
      timeout of the fragment with TxSequence k fires. */
  datatype Event =
    | Outgoing(frags: seq<LpPacket>, pkt: LpPacket, isInterest: bool)
    | AckField(k: u64)
    | Timeout(k: u64)

  function Step(o: Options, s: State, e: Event): Outcome
    requires Inv(s)
  {
    match e
    case Outgoing(frags, pkt, isInterest) => HandleOutgoing(s, frags, pkt, isInterest)
    case AckField(k) => ProcessAck(o, s, k)
    case Timeout(k) =>
      match FindKey(s.live, k)
      case None => Done(s)
      case Some(i) => Lose(o, s, i)
  }

  lemma StepRunInv(o: Options, s: State, e: Event)
    requires RunInv(o, s)
    ensures Step(o, s, e).Done? ==> RunInv(o, Step(o, s, e).s)
    ensures Step(o, s, e).Done? && NotLost(o, s) && o.lossThreshold >= 1 ==> NotLost(o, Step(o, s, e).s)
  {
    match e
    case Outgoing(frags, pkt, isInterest) =>
      OutgoingRunInv(o, s, frags, pkt, isInterest);
      if NotLost(o, s) && o.lossThreshold >= 1 {
        TransmitAllNotLost(o, s.(nets := s.nets + [Net(pkt, isInterest, false)]), frags);
      }
    case AckField(k) =>
      AckRunInv(o, s, k);
      if ProcessAck(o, s, k).Done? && NotLost(o, s) && o.lossThreshold >= 1 {
        AckNotLost(o, s, k);
      }
    case Timeout(k) =>
      if FindKey(s.live, k).Some? {
        var i := FindKey(s.live, k).value;
        LoseRunInv(o, s, i);
        if Lose(o, s, i).Done? && NotLost(o, s) && o.lossThreshold >= 1 {
          LoseNotLost(o, s, i);
        }
      }
  }

  /** The state s is reached from the initial one by the given events. */
  ghost predicate Reaches(o: Options, events: seq<Event>, s: State)
    decreases |events|
  {
    if events == [] then s == INITIAL
    else exists p :: Reaches(o, events[..|events| - 1], p) && Inv(p)
                     && Step(o, p, events[|events| - 1]) == Done(s)
  }

  /** In every run, after every step: the window lies within one lap, oldest first; overtaking
      counters are exact and below the threshold; no fragment is transmitted more than maxRetx + 1
      times; every network packet is in flight or ended in exactly one way; dropped Interests are
      reported once. */
  lemma {:induction false} EveryRun(o: Options, events: seq<Event>, s: State)
    requires Reaches(o, events, s)
    ensures RunInv(o, s)
    ensures o.lossThreshold >= 1 ==> NotLost(o, s)
    decreases |events|
  {
    if events == [] {
      assert NetsOf([]) == {};
    } else {
      var p :| Reaches(o, events[..|events| - 1], p) && Inv(p) && Step(o, p, events[|events| - 1]) == Done(s);
      EveryRun(o, events[..|events| - 1], p);
      StepRunInv(o, p, events[|events| - 1]);
    }
  }

  // ---- every network packet, exactly once ----

  lemma {:induction false} DistinctSize(s: seq<nat>)
    requires NoDuplicates(s)
    ensures |Elements(s)| == |s|
  {
    if s != [] {
      var n := |s| - 1;
      DistinctSize(s[..n]);
      assert s == s[..n] + [s[n]];
      assert Elements(s) == Elements(s[..n]) + {s[n]};
      assert s[n] !in Elements(s[..n]);
    }
  }

  lemma FourWays(a: set<nat>, b: set<nat>, c: set<nat>, d: set<nat>, n: nat)
    requires a !! b && a !! c && a !! d && b !! c && b !! d && c !! d
    requires forall x :: x in a + b + c + d ==> x < n
    requires |a| + |b| + |c| + |d| == n
    ensures forall x: nat :: x < n ==> x in a || x in b || x in c || x in d
  {
    assert |a + b| == |a| + |b|;
    assert |a + b + c| == |a| + |b| + |c|;
    assert |a + b + c + d| == n;
    Covers(a + b + c + d, n);
    assert forall x: nat :: x < n ==> x in a + b + c + d;
  }

  /** Exactly one of four conditions holds. */
  predicate OneOf(a: bool, b: bool, c: bool, d: bool) {
    && (a || b || c || d)
    && !(a && (b || c || d)) && !(b && (c || d)) && !(c && d)
  }

  /** In every run each network packet handed to the window is, at every moment, in exactly one of
      four places: in flight, counted in nAcknowledged, in nRetransmitted or in nRetxExhausted;
      each counter counts a packet at most once, and dropped Interests are reported once. */
  lemma EachPacketOnce(o: Options, events: seq<Event>, s: State)
    requires Reaches(o, events, s)
    ensures |s.nets| == |NetsOf(s.live)| + |s.acknowledged| + |s.retransmitted| + |s.exhausted|
    ensures NoDuplicates(s.acknowledged) && NoDuplicates(s.retransmitted) && NoDuplicates(s.exhausted)
    ensures forall n: nat :: n < |s.nets| ==>
              OneOf(n in NetsOf(s.live), n in s.acknowledged, n in s.retransmitted, n in s.exhausted)
    ensures Drops(s)
  {
    EveryRun(o, events, s);
    hide Overtakings;
    hide Retransmissions;
    hide Drops;
    hide NoDuplicates;
    DistinctSize(s.acknowledged);
    DistinctSize(s.retransmitted);
    DistinctSize(s.exhausted);
    forall x | x in NetsOf(s.live)
      ensures x < |s.nets|
    {
    }
    FourWays(NetsOf(s.live), Elements(s.acknowledged), Elements(s.retransmitted), Elements(s.exhausted), |s.nets|);
  }

  // ---- termination without new packets ----

  /** Transmissions that a fragment may still cause, plus one. */
  function Weight(o: Options, f: Frag): nat {
    if f.retx <= o.maxRetx then o.maxRetx + 1 - f.retx else 0
  }

  function Measure(o: Options, live: seq<Frag>): nat {
    if live == [] then 0 else Weight(o, live[0]) + Measure(o, live[1..])
  }

  lemma {:induction false} MeasureAppend(o: Options, a: seq<Frag>, b: seq<Frag>)
    ensures Measure(o, a + b) == Measure(o, a) + Measure(o, b)
  {
    if a == [] {
      assert a + b == b;
    } else {
      assert (a + b)[1..] == a[1..] + b;
      MeasureAppend(o, a[1..], b);
    }
  }

  lemma {:induction false} MeasureSame(o: Options, a: seq<Frag>, b: seq<Frag>)
    requires |a| == |b| && forall i :: 0 <= i < |a| ==> a[i].retx == b[i].retx
    ensures Measure(o, a) == Measure(o, b)
  {
    if a != [] {
      MeasureSame(o, a[1..], b[1..]);
    }
  }

  lemma {:induction false} MeasureWithout(o: Options, live: seq<Frag>, dead: set<nat>)
    requires forall i :: 0 <= i < |live| ==> live[i].retx <= o.maxRetx
    ensures Measure(o, Without(live, dead)) <= Measure(o, live)
    ensures (exists i :: 0 <= i < |live| && live[i].tx in dead) ==> Measure(o, Without(live, dead)) < Measure(o, live)
  {
    if live != [] {
      var rest := Without(live[1..], dead);
      MeasureWithout(o, live[1..], dead);
      if live[0].tx !in dead {
        assert ([live[0]] + rest)[1..] == rest;
        if i :| 0 <= i < |live| && live[i].tx in dead {
          assert live[1..][i - 1] == live[i];
        }
      } else {
        assert [] + rest == rest;
      }
    }
  }

  lemma MeasureAt(o: Options, live: seq<Frag>, i: nat)
    requires Ordered(live) && i < |live|
    ensures Measure(o, Without(live, {live[i].tx})) + Weight(o, live[i]) == Measure(o, live)
  {
    WithoutAt(live, i);
    MeasureAppend(o, live[..i], live[i + 1..]);
    MeasureAppend(o, live[..i], live[i..]);
    assert live == live[..i] + live[i..];
    assert live[i..][1..] == live[i + 1..];
  }

  predicate RetxBounded(o: Options, s: State) {
    forall i :: 0 <= i < |s.live| ==> s.live[i].retx <= o.maxRetx
  }

  /** Every loss costs. */
  lemma LoseMeasure(o: Options, s: State, i: nat)
    requires Inv(s) && RetxBounded(o, s) && i < |s.live| && Lose(o, s, i).Done?
    ensures Measure(o, Lose(o, s, i).s.live) < Measure(o, s.live)
    ensures RetxBounded(o, Lose(o, s, i).s)
  {
    var f := s.live[i];
    var s' := Lose(o, s, i).s;
    forall h | 0 <= h < |s'.live|
      ensures s'.live[h].retx <= o.maxRetx
    {
      assert s'.live[h] in s'.live;
      WithoutMember(s.live, Gone(o, s, i), s'.live[h]);
    }
    if f.retx >= o.maxRetx {
      assert f.tx in TxsOf(s.live, f.net);
      MeasureWithout(o, s.live, TxsOf(s.live, f.net));
    } else {
      MeasureAt(o, s.live, i);
      var g := Frag(s.next, f.origin, f.net, Numbered(f.pkt, s.next), f.retx + 1, 0);
      MeasureAppend(o, Without(s.live, {f.tx}), [g]);
      assert Measure(o, [g]) == Weight(o, g) + Measure(o, [g][1..]);
    }
  }

  lemma {:induction false} LoseAllMeasure(o: Options, s: State, lost: seq<nat>)
    requires Inv(s) && RetxBounded(o, s) && LoseAll(o, s, lost).Done?
    ensures Measure(o, LoseAll(o, s, lost).s.live) <= Measure(o, s.live)
    ensures RetxBounded(o, LoseAll(o, s, lost).s)
    decreases |lost|
  {
    if lost != [] {
      match Find(s.live, lost[0])
      case None => LoseAllMeasure(o, s, lost[1..]);
      case Some(i) =>
        LoseInv(o, s, i);
        LoseMeasure(o, s, i);
        LoseAllMeasure(o, Lose(o, s, i).s, lost[1..]);
    }
  }

  lemma AckMeasure(o: Options, s: State, k: u64)
    requires Inv(s) && RetxBounded(o, s) && FindKey(s.live, k).Some? && ProcessAck(o, s, k).Done?
    ensures Measure(o, ProcessAck(o, s, k).s.live) < Measure(o, s.live)
    ensures RetxBounded(o, ProcessAck(o, s, k).s)
  {
    var i := FindKey(s.live, k).value;
    var s1 := s.(live := Overtake(s.live, i));
    OvertakeInv(s, i);
    AcknowledgeInv(s1, i);
    AckedLive(s, i);
    MeasureSame(o, s.live, s1.live);
    MeasureAt(o, s1.live, i);
    LoseAllMeasure(o, Acknowledge(s1, i), LostAmong(o, s1.live, i));
  }

  /** An Ack or a timeout that concerns a fragment in the window. */
  predicate Effective(s: State, e: Event) {
    !e.Outgoing? && FindKey(s.live, e.k).Some?
  }

  /** From s, the given Acks and timeouts all take effect and lead to t. */
  ghost predicate Drains(o: Options, s: State, events: seq<Event>, t: State)
    decreases |events|
  {
    if events == [] then s == t
    else Inv(s) && Effective(s, events[0])
         && exists p :: Step(o, s, events[0]) == Done(p) && Drains(o, p, events[1..], t)
  }

  /** Without new packets, at most Measure Acks and timeouts can take effect; the window is empty
      exactly when none is left. */
  lemma {:induction false} WindowDrains(o: Options, s: State, events: seq<Event>, t: State)
    requires RunInv(o, s) && Drains(o, s, events, t)
    ensures RunInv(o, t) && |events| + Measure(o, t.live) <= Measure(o, s.live)
    ensures Measure(o, t.live) == 0 <==> t.live == []
    decreases |events|
  {
    assert RetxBounded(o, s);
    if events != [] {
      var p :| Step(o, s, events[0]) == Done(p) && Drains(o, p, events[1..], t);
      StepRunInv(o, s, events[0]);
      match events[0] {
        case AckField(k) => AckMeasure(o, s, k);
        case Timeout(k) => LoseMeasure(o, s, FindKey(s.live, k).value);
      }
      WindowDrains(o, p, events[1..], t);
    }
  }

  /** Each fragment is found under its own TxSequence. */
  lemma FindAt(s: State, i: nat)
    requires Inv(s) && i < |s.live|
    ensures FindKey(s.live, Key(s.live[i].tx)) == Some(i)
  {
    hide Key;
    var r := FindKey(s.live, Key(s.live[i].tx));
    if r.Some? && r.value < i {
      KeyInjective(s.live[r.value].tx, s.live[i].tx);
    } else if r.Some? && r.value > i {
      KeyInjective(s.live[i].tx, s.live[r.value].tx);
    }
  }

  /** While a TxSequence is free, the timeout of the oldest fragment takes effect without length_error,
      and a TxSequence is free again afterwards. */
  lemma OldestTimeout(o: Options, s: State)
    requires RunInv(o, s) && s.live != [] && !Full(s)
    ensures var e := Timeout(Key(s.live[0].tx));
            Effective(s, e) && Step(o, s, e).Done? && !Full(Step(o, s, e).s) && RunInv(o, Step(o, s, e).s)
  {
    hide Overtakings;
    hide Retransmissions;
    hide Accounts;
    hide Drops;
    FindAt(s, 0);
    var s' := Lose(o, s, 0).s;
    LoseRunInv(o, s, 0);
    if s.live[0].retx >= o.maxRetx {
      WithoutOrdered(s.live, TxsOf(s.live, s.live[0].net));
      assert s'.live != [] ==> s'.live[0] in s.live;
    } else {
      RetransmitLive(s, 0);
    }
  }

  /** Timeouts alone can empty the window, from every state in which a TxSequence is free. */
  lemma {:induction false} TimeoutsDrain(o: Options, s: State) returns (events: seq<Event>, t: State)
    requires RunInv(o, s) && !Full(s)
    ensures Drains(o, s, events, t) && t.live == []
    ensures forall i :: 0 <= i < |events| ==> events[i].Timeout?
    decreases Measure(o, s.live)
  {
    hide Step;
    hide Full;
    if s.live == [] {
      return [], s;
    }
    var e := Timeout(Key(s.live[0].tx));
    OldestTimeout(o, s);
    var p := Step(o, s, e).s;
    OldestMeasure(o, s, e);
    var rest;
    rest, t := TimeoutsDrain(o, p);
    events := [e] + rest;
    assert events[1..] == rest && Step(o, s, e) == Done(p);
  }

  lemma OldestMeasure(o: Options, s: State, e: Event)
    requires RunInv(o, s) && Effective(s, e) && Step(o, s, e).Done?
    ensures Measure(o, Step(o, s, e).s.live) < Measure(o, s.live)
  {
    assert RetxBounded(o, s);
    match e
    case AckField(k) => AckMeasure(o, s, k);
    case Timeout(k) => LoseMeasure(o, s, FindKey(s.live, k).value);
  }

  /** Acks of the oldest fragment can empty the window from every state, full or not. */
  lemma {:induction false} AcksDrain(o: Options, s: State) returns (events: seq<Event>, t: State)
    requires RunInv(o, s)
    ensures Drains(o, s, events, t) && t.live == []
    ensures forall i :: 0 <= i < |events| ==> events[i].AckField?
    decreases Measure(o, s.live)
  {
    if s.live == [] {
      return [], s;
    }
    var e := AckField(Key(s.live[0].tx));
    FindAt(s, 0);
    assert Step(o, s, e).Done?;
    hide Step;
    StepRunInv(o, s, e);
    OldestMeasure(o, s, e);
    var p := Step(o, s, e).s;
    var rest;
    rest, t := AcksDrain(o, p);
    events := [e] + rest;
    assert events[1..] == rest && Step(o, s, e) == Done(p);
  }
}
