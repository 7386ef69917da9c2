/** The send window of LpReliability as a plain list: unacknowledged fragments in the order of their
    transmissions, numbered by a counter that never wraps. Every operation is a list operation.
    Class LpReliability is proved to compute exactly these operations with 64-bit TxSequence
    numbers, a key-ordered map and one "first unacknowledged" pointer. */
module TxWindow {
  import opened Basics
  import opened LpPackets

  /** One transmission that is neither acknowledged nor given up.
      tx: its position among all transmissions; origin: the position of the first transmission of
      the same fragment; net: index of its network packet. */
  datatype Frag = Frag(tx: nat, origin: nat, net: nat, pkt: LpPacket, retx: nat, greater: nat)

  /** A fragment: the position of its first transmission and the index of its network packet. */
  datatype FragId = FragId(first: nat, net: nat)

  function IdOf(f: Frag): FragId {
    FragId(f.origin, f.net)
  }

  datatype Net = Net(pkt: LpPacket, isInterest: bool, didRetx: bool)

  datatype Options = Options(maxRetx: nat, lossThreshold: nat)

  /** next: number of transmissions so far; nets: all network packets so far. The rest is history,
      oldest first. acks: acknowledged transmissions; resent: retransmitted packets; log: the
      fragment that each transmission carries;
      acknowledged, retransmitted, exhausted: the network packets counted in nAcknowledged,
      nRetransmitted and nRetxExhausted; dropped: those reported by onDroppedInterest. */
  datatype State = State(
    next: nat,
    live: seq<Frag>,
    nets: seq<Net>,
    acks: seq<nat>,
    resent: seq<LpPacket>,
    log: seq<FragId>,
    acknowledged: seq<nat>,
    retransmitted: seq<nat>,
    exhausted: seq<nat>,
    dropped: seq<nat>)

  const INITIAL := State(0, [], [], [], [], [], [], [], [], [])

  /** `length_error` is never handled: the process ends there. */
  datatype Outcome = Done(s: State) | LengthError

  // ---- the list operations ----

  /** The fragments whose transmissions are not in `dead`. */
  function Without(live: seq<Frag>, dead: set<nat>): seq<Frag> {
    if live == [] then []
    else (if live[0].tx in dead then [] else [live[0]]) + Without(live[1..], dead)
  }

  /** All transmissions in the window that belong to network packet `net`. */
  function TxsOf(live: seq<Frag>, net: nat): set<nat> {
    set i | 0 <= i < |live| && live[i].net == net :: live[i].tx
  }

  /** Network packets with at least one fragment in the window. */
  function NetsOf(live: seq<Frag>): set<nat> {
    set i | 0 <= i < |live| :: live[i].net
  }

  /** No 64-bit number is left for the next transmission. */
  predicate NoNumberLeft(live: seq<Frag>, next: nat) {
    live != [] && next == live[0].tx + M64
  }

  predicate Full(s: State) {
    NoNumberLeft(s.live, s.next)
  }

  function Numbered(pkt: LpPacket, tx: nat): LpPacket {
    pkt.(txSequence := Some(Key(tx)))
  }

  /** A fragment of the newest network packet is transmitted for the first time. */
  function Transmit(s: State, pkt: LpPacket): Outcome
    requires s.nets != []
  {
    if Full(s) then LengthError
    else Done(s.(next := s.next + 1,
                 live := s.live + [Frag(s.next, s.next, |s.nets| - 1, Numbered(pkt, s.next), 0, 0)],
                 log := s.log + [FragId(s.next, |s.nets| - 1)]))
  }

  function TransmitAll(s: State, pkts: seq<LpPacket>): Outcome
    requires s.nets != []
    decreases |pkts|
  {
    if pkts == [] then Done(s)
    else match Transmit(s, pkts[0])
         case LengthError => LengthError
         case Done(s') => TransmitAll(s', pkts[1..])
  }

  /** `handleOutgoing`: a network packet enters the window with its fragments. */
  function HandleOutgoing(s: State, frags: seq<LpPacket>, pkt: LpPacket, isInterest: bool): Outcome {
    if frags == [] then Done(s)
    else TransmitAll(s.(nets := s.nets + [Net(pkt, isInterest, false)]), frags)
  }

  /** `onLpPacketAcknowledged` for the fragment at position i. */
  function Acknowledge(s: State, i: nat): State
    requires i < |s.live|
    requires s.live[i].net < |s.nets|
  {
    var f := s.live[i];
    var rest := Without(s.live, {f.tx});
    var complete := TxsOf(rest, f.net) == {};
    var retx := s.nets[f.net].didRetx;
    s.(live := rest,
       acks := s.acks + [f.tx],
       retransmitted := if complete && retx then s.retransmitted + [f.net] else s.retransmitted,
       acknowledged := if complete && !retx then s.acknowledged + [f.net] else s.acknowledged)
  }

  /** Giving up on network packet `net`. */
  function GiveUp(s: State, net: nat): State
    requires net < |s.nets|
  {
    s.(live := Without(s.live, TxsOf(s.live, net)),
       exhausted := s.exhausted + [net],
       dropped := if s.nets[net].isInterest then s.dropped + [net] else s.dropped)
  }

  /** Retransmission of the fragment at position i: it becomes the newest transmission. */
  function Retransmit(s: State, i: nat): State
    requires i < |s.live|
    requires s.live[i].net < |s.nets|
  {
    var f := s.live[i];
    var pkt := Numbered(f.pkt, s.next);
    s.(next := s.next + 1,
       live := Without(s.live, {f.tx}) + [Frag(s.next, f.origin, f.net, pkt, f.retx + 1, 0)],
       nets := s.nets[f.net := s.nets[f.net].(didRetx := true)],
       resent := s.resent + [pkt],
       log := s.log + [IdOf(f)])
  }

  /** `onLpPacketLost` for the fragment at position i. */
  function Lose(o: Options, s: State, i: nat): Outcome
    requires i < |s.live|
    requires s.live[i].net < |s.nets|
  {
    var f := s.live[i];
    if f.retx >= o.maxRetx then Done(GiveUp(s, f.net))
    else if Full(s) then LengthError
    else Done(Retransmit(s, i))
  }

  /** Position of transmission tx in the window. */
  function Find(live: seq<Frag>, tx: nat): (r: Option<nat>)
    ensures r.Some? ==> r.value < |live| && live[r.value].tx == tx
    ensures r.None? ==> forall i :: 0 <= i < |live| ==> live[i].tx != tx
  {
    if live == [] then None
    else if live[0].tx == tx then Some(0)
    else
      var r := Find(live[1..], tx);
      if r.None? then None else Some(r.value + 1)
  }

  /** Position of the fragment whose TxSequence is k. */
  function FindKey(live: seq<Frag>, k: u64): (r: Option<nat>)
    ensures r.Some? ==> r.value < |live| && Key(live[r.value].tx) == k
    ensures r.None? ==> forall i :: 0 <= i < |live| ==> Key(live[i].tx) != k
  {
    if live == [] then None
    else if Key(live[0].tx) == k then Some(0)
    else
      var r := FindKey(live[1..], k);
      if r.None? then None else Some(r.value + 1)
  }

  /** The loss batch: each transmission in the list that is still in the window is lost in turn. */
  function LoseAll(o: Options, s: State, lost: seq<nat>): Outcome
    requires Inv(s)
    decreases |lost|
  {
    if lost == [] then Done(s)
    else match Find(s.live, lost[0])
         case None => LoseAll(o, s, lost[1..])
         case Some(i) =>
           match Lose(o, s, i)
           case LengthError => LengthError
           case Done(s') => LoseInv(o, s, i); LoseAll(o, s', lost[1..])
  }

  /** One more acknowledgement of a later transmission. */
  function Overtaken(f: Frag): Frag {
    f.(greater := f.greater + 1)
  }

  /** The first n fragments of the window are overtaken. */
  function Overtake(live: seq<Frag>, n: nat): (r: seq<Frag>)
    requires n <= |live|
    ensures |r| == |live|
  {
    seq(|live|, i requires 0 <= i < |live| => if i < n then Overtaken(live[i]) else live[i])
  }

  /** Transmissions among the first n that have been overtaken too often, oldest first. */
  function LostAmong(o: Options, live: seq<Frag>, n: nat): seq<nat>
    requires n <= |live|
  {
    if n == 0 then []
    else LostAmong(o, live, n - 1)
         + (if live[n - 1].greater >= o.lossThreshold then [live[n - 1].tx] else [])
  }

  /** One Ack field of an incoming packet. */
  function ProcessAck(o: Options, s: State, k: u64): Outcome
    requires Inv(s)
  {
    match FindKey(s.live, k)
    case None => Done(s)
    case Some(i) =>
      var s1 := s.(live := Overtake(s.live, i));
      OvertakeInv(s, i);
      AcknowledgeInv(s1, i);
      LoseAll(o, Acknowledge(s1, i), LostAmong(o, s1.live, i))
  }

  function ProcessAcks(o: Options, s: State, ks: seq<u64>): Outcome
    requires Inv(s)
    decreases |ks|
  {
    if ks == [] then Done(s)
    else match ProcessAck(o, s, ks[0])
         case LengthError => LengthError
         case Done(s') => ProcessAckInv(o, s, ks[0]); ProcessAcks(o, s', ks[1..])
  }

  // ---- the invariant of the window ----

  predicate Ordered(live: seq<Frag>) {
    forall i, j :: 0 <= i < j < |live| ==> live[i].tx < live[j].tx
  }

  /** All live transmissions lie within the last 2^64 transmissions, oldest first. */
  predicate InLap(live: seq<Frag>, next: nat) {
    && Ordered(live)
    && (forall i :: 0 <= i < |live| ==> live[i].tx < next)
    && (live != [] ==> next <= live[0].tx + M64)
  }

  predicate Inv(s: State) {
    && InLap(s.live, s.next)
    && (forall i :: 0 <= i < |s.live| ==> s.live[i].net < |s.nets|)
  }

  lemma {:induction false} WithoutMember(live: seq<Frag>, dead: set<nat>, f: Frag)
    ensures f in Without(live, dead) <==> f in live && f.tx !in dead
  {
    if live != [] {
      WithoutMember(live[1..], dead, f);
    }
  }

  lemma WithoutMembers(live: seq<Frag>, dead: set<nat>)
    ensures forall f :: f in Without(live, dead) <==> f in live && f.tx !in dead
  {
    forall f: Frag
      ensures f in Without(live, dead) <==> f in live && f.tx !in dead
    {
      WithoutMember(live, dead, f);
    }
  }

  lemma {:induction false} WithoutOrder(live: seq<Frag>, dead: set<nat>)
    requires Ordered(live)
    ensures Ordered(Without(live, dead))
  {
    if live != [] {
      var rest := Without(live[1..], dead);
      WithoutOrder(live[1..], dead);
      WithoutMembers(live[1..], dead);
      forall i | 0 <= i < |rest|
        ensures live[0].tx < rest[i].tx
      {
        assert rest[i] in rest;
        var j :| 0 <= j < |live[1..]| && live[1..][j] == rest[i];
        assert live[1..][j] == live[j + 1];
      }
    }
  }

  lemma WithoutOrdered(live: seq<Frag>, dead: set<nat>)
    requires Ordered(live)
    ensures Ordered(Without(live, dead))
    ensures forall i :: 0 <= i < |Without(live, dead)| ==>
              Without(live, dead)[i] in live && Without(live, dead)[i].tx !in dead
    ensures forall f :: f in live && f.tx !in dead ==> f in Without(live, dead)
  {
    WithoutOrder(live, dead);
    WithoutMembers(live, dead);
    var w := Without(live, dead);
    assert forall i :: 0 <= i < |w| ==> w[i] in w;
  }

  lemma {:induction false} WithoutTwice(live: seq<Frag>, a: set<nat>, b: set<nat>)
    ensures Without(Without(live, a), b) == Without(live, a + b)
  {
    if live != [] {
      WithoutTwice(live[1..], a, b);
      var rest := Without(live[1..], a);
      if live[0].tx in a {
        assert Without(live, a) == rest;
      } else {
        assert Without(live, a) == [live[0]] + rest;
        assert ([live[0]] + rest)[1..] == rest;
      }
    }
  }

  /** Removing the fragment at position i of an ordered window. */
  lemma {:induction false} WithoutAt(live: seq<Frag>, i: nat)
    requires Ordered(live) && i < |live|
    ensures Without(live, {live[i].tx}) == live[..i] + live[i + 1..]
  {
    if i == 0 {
      WithoutNone(live[1..], {live[0].tx});
    } else {
      WithoutAt(live[1..], i - 1);
      assert live[0].tx < live[i].tx;
      assert live[..i] + live[i + 1..] == [live[0]] + (live[1..][..i - 1] + live[1..][i..]);
    }
  }

  lemma {:induction false} WithoutNone(live: seq<Frag>, dead: set<nat>)
    requires forall i :: 0 <= i < |live| ==> live[i].tx !in dead
    ensures Without(live, dead) == live
  {
    if live != [] {
      WithoutNone(live[1..], dead);
    }
  }

  lemma {:induction false} WithoutAppend(live: seq<Frag>, f: Frag, dead: set<nat>)
    requires f.tx !in dead
    ensures Without(live + [f], dead) == Without(live, dead) + [f]
  {
    if live == [] {
      assert live + [f] == [f];
      assert [f][1..] == [];
    } else {
      var rest := live[1..];
      assert (live + [f])[0] == live[0] && (live + [f])[1..] == rest + [f];
      WithoutAppend(rest, f, dead);
      var head := if live[0].tx in dead then [] else [live[0]];
      assert Without(live + [f], dead) == head + (Without(rest, dead) + [f]);
    }
  }

  /** Only the window's own transmissions matter. */
  lemma {:induction false} WithoutSame(live: seq<Frag>, a: set<nat>, b: set<nat>)
    requires forall i :: 0 <= i < |live| ==> (live[i].tx in a <==> live[i].tx in b)
    ensures Without(live, a) == Without(live, b)
  {
    if live != [] {
      assert live[0].tx in a <==> live[0].tx in b;
      assert forall i :: 0 <= i < |live[1..]| ==> live[1..][i] == live[i + 1];
      WithoutSame(live[1..], a, b);
    }
  }

  /** A network packet is complete when fragment i goes exactly if i is its only fragment left. */
  lemma OnlyFragment(live: seq<Frag>, i: nat)
    requires Ordered(live) && i < |live|
    ensures TxsOf(Without(live, {live[i].tx}), live[i].net) == {}
            <==> forall j :: 0 <= j < |live| && j != i ==> live[j].net != live[i].net
  {
    WithoutAt(live, i);
    OnlyFragmentAt(live, i, live[..i] + live[i + 1..]);
  }

  lemma OnlyFragmentAt(live: seq<Frag>, i: nat, rest: seq<Frag>)
    requires i < |live| && rest == live[..i] + live[i + 1..]
    ensures TxsOf(rest, live[i].net) == {}
            <==> forall j :: 0 <= j < |live| && j != i ==> live[j].net != live[i].net
  {
    if j :| 0 <= j < |live| && j != i && live[j].net == live[i].net {
      var m := if j < i then j else j - 1;
      assert rest[m] == live[j];
      assert rest[m].tx in TxsOf(rest, live[i].net);
    } else {
      forall j | 0 <= j < |rest|
        ensures rest[j].net != live[i].net
      {
        assert rest[j] == live[if j < i then j else j + 1];
      }
    }
  }

  lemma WithoutInLap(live: seq<Frag>, dead: set<nat>, next: nat)
    requires InLap(live, next)
    ensures InLap(Without(live, dead), next)
  {
    WithoutOrdered(live, dead);
    var w := Without(live, dead);
    if w != [] {
      assert w[0] in live;
    }
  }

  lemma WithoutInv(s: State, dead: set<nat>)
    requires Inv(s)
    ensures Inv(s.(live := Without(s.live, dead)))
  {
    WithoutInLap(s.live, dead, s.next);
    WithoutOrdered(s.live, dead);
  }

  lemma AppendInLap(live: seq<Frag>, next: nat, f: Frag)
    requires InLap(live, next) && f.tx == next
    requires live == [] || next < live[0].tx + M64
    ensures InLap(live + [f], next + 1)
  {
  }

  lemma TransmitInv(s: State, pkt: LpPacket)
    requires Inv(s) && s.nets != []
    ensures Transmit(s, pkt).Done? ==> Inv(Transmit(s, pkt).s)
  {
  }

  lemma OvertakeInv(s: State, n: nat)
    requires Inv(s) && n <= |s.live|
    ensures Inv(s.(live := Overtake(s.live, n)))
  {
  }

  lemma AcknowledgeInv(s: State, i: nat)
    requires Inv(s) && i < |s.live|
    ensures Inv(Acknowledge(s, i))
  {
    WithoutInv(s, {s.live[i].tx});
  }

  lemma RetransmitInv(s: State, i: nat)
    requires Inv(s) && i < |s.live| && !Full(s)
    ensures Inv(Retransmit(s, i))
  {
    var f := s.live[i];
    WithoutAt(s.live, i);
    assert Ordered(Retransmit(s, i).live);
  }

  lemma LoseInv(o: Options, s: State, i: nat)
    requires Inv(s) && i < |s.live|
    ensures Lose(o, s, i).Done? ==> Inv(Lose(o, s, i).s)
  {
    if s.live[i].retx >= o.maxRetx {
      WithoutInv(s, TxsOf(s.live, s.live[i].net));
    } else if !Full(s) {
      RetransmitInv(s, i);
    }
  }

  lemma {:induction false} LoseAllInv(o: Options, s: State, lost: seq<nat>)
    requires Inv(s)
    ensures LoseAll(o, s, lost).Done? ==> Inv(LoseAll(o, s, lost).s)
    decreases |lost|
  {
    if lost != [] {
      match Find(s.live, lost[0])
      case None => LoseAllInv(o, s, lost[1..]);
      case Some(i) =>
        LoseInv(o, s, i);
        if Lose(o, s, i).Done? {
          LoseAllInv(o, Lose(o, s, i).s, lost[1..]);
        }
    }
  }

  lemma ProcessAckInv(o: Options, s: State, k: u64)
    requires Inv(s)
    ensures ProcessAck(o, s, k).Done? ==> Inv(ProcessAck(o, s, k).s)
  {
    match FindKey(s.live, k)
    case None =>
    case Some(i) =>
      OvertakeInv(s, i);
      var s1 := s.(live := Overtake(s.live, i));
      AcknowledgeInv(s1, i);
      LoseAllInv(o, Acknowledge(s1, i), LostAmong(o, s1.live, i));
  }

  // ---- the loss batch ----

  lemma {:induction false} LostAmongSame(o: Options, a: seq<Frag>, b: seq<Frag>, n: nat)
    requires n <= |a| && n <= |b| && a[..n] == b[..n]
    ensures LostAmong(o, a, n) == LostAmong(o, b, n)
  {
    if n > 0 {
      assert a[n - 1] == a[..n][n - 1] == b[n - 1];
      assert a[..n - 1] == a[..n][..n - 1] == b[..n - 1];
      LostAmongSame(o, a, b, n - 1);
    }
  }

  lemma OvertakeNone(live: seq<Frag>)
    ensures Overtake(live, 0) == live
  {
  }

  lemma LostNone(o: Options, live: seq<Frag>)
    ensures LostAmong(o, Overtake(live, 0), 0) == []
  {
  }

  lemma LostNext(o: Options, live: seq<Frag>, j: nat)
    requires j < |live|
    ensures LostAmong(o, Overtake(live, j + 1), j + 1)
            == LostAmong(o, Overtake(live, j), j)
               + (if live[j].greater + 1 >= o.lossThreshold then [live[j].tx] else [])
  {
    assert Overtake(live, j + 1)[..j] == Overtake(live, j)[..j];
    LostAmongSame(o, Overtake(live, j + 1), Overtake(live, j), j);
  }

  /** The lost transmissions are exactly those among the first n that reached the threshold. */
  lemma {:induction false} LostAmongIs(o: Options, live: seq<Frag>, n: nat)
    requires Ordered(live) && n <= |live|
    ensures var l := LostAmong(o, live, n);
            && (forall a, b :: 0 <= a < b < |l| ==> l[a] < l[b])
            && (forall i :: 0 <= i < n && live[i].greater >= o.lossThreshold ==> live[i].tx in l)
            && (forall a :: 0 <= a < |l| ==>
                  exists i :: 0 <= i < n && live[i].tx == l[a] && live[i].greater >= o.lossThreshold)
  {
    if n > 0 {
      LostAmongIs(o, live, n - 1);
      var l := LostAmong(o, live, n - 1);
      forall a | 0 <= a < |l|
        ensures l[a] < live[n - 1].tx
      {
        var i :| 0 <= i < n - 1 && live[i].tx == l[a];
      }
    }
  }

  /** Transmissions that leave the window when fragment i is lost. */
  function Gone(o: Options, s: State, i: nat): set<nat>
    requires i < |s.live|
  {
    if s.live[i].retx >= o.maxRetx then TxsOf(s.live, s.live[i].net) else {s.live[i].tx}
  }

  lemma LoseGone(o: Options, s: State, i: nat, t: nat)
    requires Inv(s) && i < |s.live| && Lose(o, s, i).Done? && t < s.next
    ensures Find(Lose(o, s, i).s.live, t).Some? <==> Find(s.live, t).Some? && t !in Gone(o, s, i)
  {
    var s' := Lose(o, s, i).s;
    var dead := Gone(o, s, i);
    var rest := Without(s.live, dead);
    WithoutOrdered(s.live, dead);
    assert s'.live == rest || (|s'.live| == |rest| + 1 && s'.live[..|rest|] == rest && s'.live[|rest|].tx == s.next);
    if Find(s.live, t).Some? && t !in dead {
      var f := s.live[Find(s.live, t).value];
      assert f in rest;
      var j :| 0 <= j < |rest| && rest[j] == f;
      assert s'.live[j] == f;
    }
    if Find(s'.live, t).Some? {
      var j := Find(s'.live, t).value;
      assert s'.live[j] == rest[j];
      assert rest[j] in s.live;
    }
  }

  /** Progress of a loss batch: from position j on, the transmissions that are no longer in the
      window are exactly those whose TxSequence numbers have been removed by the batch. */
  ghost predicate Batch(s: State, lost: seq<nat>, j: nat, removed: set<u64>) {
    && (forall a, b :: 0 <= a < b < |lost| ==> lost[a] < lost[b])
    && (forall m :: j <= m < |lost| ==>
          && lost[m] < s.next
          && (Find(s.live, lost[m]).None? <==> Key(lost[m]) in removed))
  }

  lemma BatchStart(o: Options, s: State, i: nat)
    requires Inv(s) && i < |s.live|
    ensures Batch(Acknowledge(s, i), LostAmong(o, s.live, i), 0, {})
  {
    var lost := LostAmong(o, s.live, i);
    var s' := Acknowledge(s, i);
    LostAmongIs(o, s.live, i);
    WithoutOrdered(s.live, {s.live[i].tx});
    forall m | 0 <= m < |lost|
      ensures lost[m] < s'.next && Find(s'.live, lost[m]).Some?
    {
      var h :| 0 <= h < i && s.live[h].tx == lost[m];
      assert s.live[h] in s'.live;
    }
  }

  lemma BatchSkip(s: State, lost: seq<nat>, j: nat, removed: set<u64>)
    requires Batch(s, lost, j, removed) && j < |lost|
    ensures Batch(s, lost, j + 1, removed)
  {
  }

  lemma BatchStep(o: Options, s: State, lost: seq<nat>, j: nat, removed: set<u64>, i: nat, more: seq<u64>)
    requires Inv(s) && Batch(s, lost, j, removed) && j < |lost|
    requires i < |s.live| && s.live[i].tx == lost[j] && Lose(o, s, i).Done?
    requires forall g :: 0 <= g < |s.live| ==> (s.live[g].tx in Gone(o, s, i) <==> Key(s.live[g].tx) in more)
    ensures Batch(Lose(o, s, i).s, lost, j + 1, removed + Elements(more))
  {
    var s' := Lose(o, s, i).s;
    forall m | j + 1 <= m < |lost|
      ensures lost[m] < s'.next
      ensures Find(s'.live, lost[m]).None? <==> Key(lost[m]) in removed + Elements(more)
    {
      LoseGone(o, s, i, lost[m]);
      assert Key(lost[m]) in Elements(more) <==> Key(lost[m]) in more;
      if Find(s.live, lost[m]).Some? {
        assert s.live[Find(s.live, lost[m]).value].tx == lost[m];
      }
    }
  }

  /** Retransmissions are only ever added. */
  predicate ResentGrows(s: State, s': State) {
    s.resent <= s'.resent
  }

  lemma LoseResent(o: Options, s: State, i: nat)
    requires i < |s.live| && s.live[i].net < |s.nets|
    ensures Lose(o, s, i).Done? ==> ResentGrows(s, Lose(o, s, i).s)
  {
  }

  /** The decision for position j of a batch, and what remains of the batch. */
  lemma BatchAt(o: Options, s: State, lost: seq<nat>, j: nat, removed: set<u64>)
    requires Inv(s) && Batch(s, lost, j, removed) && j < |lost|
    ensures Key(lost[j]) in removed <==> Find(s.live, lost[j]).None?
    ensures Find(s.live, lost[j]).None? ==> LoseAll(o, s, lost[j..]) == LoseAll(o, s, lost[j + 1..])
    ensures Find(s.live, lost[j]).Some? ==>
              var i := Find(s.live, lost[j]).value;
              && s.live[i].net < |s.nets|
              && (Lose(o, s, i).LengthError? ==> LoseAll(o, s, lost[j..]).LengthError?)
              && (Lose(o, s, i).Done? ==>
                    Inv(Lose(o, s, i).s)
                    && LoseAll(o, s, lost[j..]) == LoseAll(o, Lose(o, s, i).s, lost[j + 1..])
                    && ResentGrows(s, Lose(o, s, i).s))
  {
    assert lost[j..][0] == lost[j];
    assert lost[j..][1..] == lost[j + 1..];
    if Find(s.live, lost[j]).Some? {
      LoseInv(o, s, Find(s.live, lost[j]).value);
      LoseResent(o, s, Find(s.live, lost[j]).value);
    }
  }

  /** One Ack field: the rest of the list of Acks is processed in the resulting state. */
  lemma AcksAt(o: Options, s: State, ks: seq<u64>, j: nat)
    requires Inv(s) && j < |ks|
    ensures ProcessAck(o, s, ks[j]).LengthError? ==> ProcessAcks(o, s, ks[j..]).LengthError?
    ensures ProcessAck(o, s, ks[j]).Done? ==>
              && Inv(ProcessAck(o, s, ks[j]).s)
              && ProcessAcks(o, s, ks[j..]) == ProcessAcks(o, ProcessAck(o, s, ks[j]).s, ks[j + 1..])
  {
    assert ks[j..][0] == ks[j];
    assert ks[j..][1..] == ks[j + 1..];
    ProcessAckInv(o, s, ks[j]);
  }

  /** The parts of ProcessAck. */
  lemma AckParts(o: Options, s: State, i: nat)
    requires Inv(s) && i < |s.live|
    ensures var s1 := s.(live := Overtake(s.live, i));
            && Inv(s1) && Inv(Acknowledge(s1, i))
            && Batch(Acknowledge(s1, i), LostAmong(o, s1.live, i), 0, {})
            && ResentGrows(s, Acknowledge(s1, i))
            && Key(s1.live[i].tx) == Key(s.live[i].tx)
            && (FindKey(s.live, Key(s.live[i].tx)) == Some(i) ==>
                  ProcessAck(o, s, Key(s.live[i].tx)) == LoseAll(o, Acknowledge(s1, i), LostAmong(o, s1.live, i)))
  {
    var s1 := s.(live := Overtake(s.live, i));
    OvertakeInv(s, i);
    AcknowledgeInv(s1, i);
    BatchStart(o, s1, i);
  }

  lemma {:induction false} TransmitAllStep(s: State, pkts: seq<LpPacket>, j: nat)
    requires s.nets != [] && j < |pkts|
    ensures Transmit(s, pkts[j]).LengthError? ==> TransmitAll(s, pkts[j..]).LengthError?
    ensures Transmit(s, pkts[j]).Done? ==>
              TransmitAll(s, pkts[j..]) == TransmitAll(Transmit(s, pkts[j]).s, pkts[j + 1..])
  {
    assert pkts[j..][0] == pkts[j];
    assert pkts[j..][1..] == pkts[j + 1..];
  }
}
