/** The data structures of LpReliability: a map of unacknowledged fragments keyed by 64-bit
    TxSequence numbers, and the network packets that their fragments share; when they represent a
    window, and what each map and list operation does to that. */
module FragMap {
  import opened Basics
  import opened LpPackets
  import opened CyclicKeys
  import W = TxWindow

  /** A network packet with unacknowledged fragments. */
  datatype NetPkt = NetPkt(unackedFrags: seq<u64>, pkt: LpPacket, isInterest: bool, didRetx: bool)

  /** The NetPkt objects in existence; a `shared_ptr<NetPkt>` is a handle into this map. */
  type NetPkts = map<nat, NetPkt>

  /** A sent fragment. rtoTimer: the TxSequence that the pending timeout will report as lost. */
  datatype UnackedFrag = UnackedFrag(
    pkt: LpPacket,
    rtoTimer: Option<u64>,
    retxCount: nat,
    nGreaterSeqAcks: nat,
    netPkt: nat)

  type UnackedFrags = map<u64, UnackedFrag>

  /** `++` on a uint64_t. */
  function Increment(n: u64): u64 {
    if n == M64 - 1 then 0 else n + 1
  }

  lemma IncrementKey(n: nat)
    ensures Increment(Key(n)) == Key(n + 1)
  {
    KeyFrom(n, n + 1);
  }

  predicate Stands(u: UnackedFrag, f: W.Frag) {
    u.pkt == f.pkt && u.retxCount == f.retx && u.nGreaterSeqAcks == f.greater && u.netPkt == f.net
  }

  /** The map, the pointer and the counter represent a window and its transmission count. */
  ghost predicate Represents(u: UnackedFrags, first: Option<u64>, last: u64, live: seq<W.Frag>, next: nat) {
    && W.InLap(live, next)
    && KeysMatch(u.Keys, live)
    && FirstMatches(first, live)
    && Increment(last) == Key(next)
    && (forall i :: 0 <= i < |live| ==>
          Key(live[i].tx) in u && Stands(u[Key(live[i].tx)], live[i]))
  }

  /** Every pending timeout reports its own fragment. */
  predicate TimersMatch(u: UnackedFrags) {
    forall k :: k in u ==> u[k].rtoTimer == Some(k)
  }

  /** `list` holds the TxSequences of exactly the fragments of network packet n, each once. */
  ghost predicate Lists(u: UnackedFrags, n: nat, list: seq<u64>) {
    NoDuplicates(list) && forall k :: k in list <==> k in u && u[k].netPkt == n
  }

  /** Two-way ownership: each fragment occurs exactly once in the list of its network packet, and
      each entry of that list is a fragment that points back. */
  ghost predicate Ownership(u: UnackedFrags, v: NetPkts, nets: seq<W.Net>) {
    && (forall k :: k in u ==> u[k].netPkt in v)
    && (forall n :: n in v ==>
          && Lists(u, n, v[n].unackedFrags)
          && n < |nets| && nets[n] == W.Net(v[n].pkt, v[n].isInterest, v[n].didRetx))
  }

  // ---- the representation under the map operations ----

  lemma EraseRepresents(u: UnackedFrags, first: Option<u64>, last: u64, live: seq<W.Frag>, next: nat, i: nat)
    requires Represents(u, first, last, live, next) && i < |live|
    ensures var k := Key(live[i].tx);
            k in u && Represents(u - {k}, FirstAfterErase(first, k, u.Keys - {k}), last,
                                 W.Without(live, {live[i].tx}), next)
  {
    var k := Key(live[i].tx);
    W.WithoutAt(live, i);
    W.WithoutInLap(live, {live[i].tx}, next);
    EraseMatches(u.Keys, live, next, i);
    FirstErased(u.Keys, first, live, next, i);
    var live' := live[..i] + live[i + 1..];
    assert (u - {k}).Keys == u.Keys - {k};
    forall j | 0 <= j < |live'|
      ensures Key(live'[j].tx) in u - {k} && Stands((u - {k})[Key(live'[j].tx)], live'[j])
    {
      var m := if j < i then j else j + 1;
      assert live'[j] == live[m];
      KeyAt(live, next, m);
      KeyAt(live, next, i);
    }
  }

  lemma InsertRepresents(u: UnackedFrags, first: Option<u64>, last: u64, live: seq<W.Frag>, next: nat,
                         uf: UnackedFrag, f: W.Frag)
    requires Represents(u, first, last, live, next) && !W.NoNumberLeft(live, next)
    requires f.tx == next && Stands(uf, f)
    ensures Key(next) !in u
    ensures Represents(u[Key(next) := uf], if live == [] then Some(Key(next)) else first, Key(next),
                       live + [f], next + 1)
  {
    var u' := u[Key(next) := uf];
    var live' := live + [f];
    NextKeyFree(u.Keys, first, live, next);
    AppendMatches(u.Keys, live, f);
    assert u'.Keys == u.Keys + {Key(f.tx)};
    assert KeysMatch(u'.Keys, live');
    IncrementKey(next);
    W.AppendInLap(live, next, f);
    InsertStands(u, live, uf, f);
  }

  lemma InsertStands(u: UnackedFrags, live: seq<W.Frag>, uf: UnackedFrag, f: W.Frag)
    requires Key(f.tx) !in u && Stands(uf, f)
    requires forall i :: 0 <= i < |live| ==> Key(live[i].tx) in u && Stands(u[Key(live[i].tx)], live[i])
    ensures var u', live' := u[Key(f.tx) := uf], live + [f];
            forall i :: 0 <= i < |live'| ==> Key(live'[i].tx) in u' && Stands(u'[Key(live'[i].tx)], live'[i])
  {
  }

  /** Retransmission in the map: the fragment enters under its new number, then the old one goes. */
  lemma MoveRepresents(u: UnackedFrags, first: Option<u64>, last: u64, live: seq<W.Frag>, next: nat, i: nat,
                       uf: UnackedFrag, f: W.Frag)
    requires Represents(u, first, last, live, next) && !W.NoNumberLeft(live, next)
    requires i < |live| && f.tx == next && Stands(uf, f)
    ensures Key(next) !in u
    ensures var k, u' := Key(live[i].tx), u[Key(next) := uf];
            Represents(u' - {k}, FirstAfterErase(first, k, u'.Keys - {k}), Key(next),
                       W.Without(live, {live[i].tx}) + [f], next + 1)
  {
    InsertRepresents(u, first, last, live, next, uf, f);
    EraseRepresents(u[Key(next) := uf], first, Key(next), live + [f], next + 1, i);
    W.WithoutAppend(live, f, {live[i].tx});
  }

  /** The erased keys are those of the dead transmissions. */
  ghost predicate Tracks(live: seq<W.Frag>, dead: set<nat>, removed: seq<u64>) {
    forall g :: 0 <= g < |live| ==> (live[g].tx in dead <==> Key(live[g].tx) in removed)
  }

  /** One round of erasing several fragments. */
  lemma EraseOne(u: UnackedFrags, first: Option<u64>, last: u64, live: seq<W.Frag>, next: nat,
                 dead: set<nat>, removed: seq<u64>, q: u64) returns (t: nat)
    requires W.InLap(live, next) && Represents(u, first, last, W.Without(live, dead), next)
    requires q in u && Tracks(live, dead, removed)
    ensures first.Some?
    ensures Represents(u - {q}, FirstAfterErase(first, q, u.Keys - {q}), last, W.Without(live, dead + {t}), next)
    ensures Tracks(live, dead + {t}, removed + [q])
  {
    var cur := W.Without(live, dead);
    var m := W.FindKey(cur, q).value;
    t := cur[m].tx;
    EraseRepresents(u, first, last, cur, next, m);
    W.WithoutTwice(live, dead, {t});
    W.WithoutMember(live, dead, cur[m]);
    var h :| 0 <= h < |live| && live[h] == cur[m];
    TrackOne(live, next, dead, removed, h);
  }

  lemma TrackOne(live: seq<W.Frag>, next: nat, dead: set<nat>, removed: seq<u64>, h: nat)
    requires W.InLap(live, next) && Tracks(live, dead, removed) && h < |live|
    ensures Tracks(live, dead + {live[h].tx}, removed + [Key(live[h].tx)])
  {
    forall g | 0 <= g < |live|
      ensures live[g].tx in dead + {live[h].tx} <==> Key(live[g].tx) in removed + [Key(live[h].tx)]
    {
      KeyAt(live, next, g);
      KeyAt(live, next, h);
    }
  }

  // ---- the fragment list of a network packet ----

  /** Overwriting entry i with the last entry and dropping the last one removes entry i. */
  lemma SwapPop(l: seq<u64>, i: nat)
    requires i < |l| && NoDuplicates(l)
    ensures var l' := l[i := l[|l| - 1]][..|l| - 1];
            NoDuplicates(l') && forall x :: x in l' <==> x in l && x != l[i]
  {
    var l' := l[i := l[|l| - 1]][..|l| - 1];
    forall x | x in l && x != l[i]
      ensures x in l'
    {
      var j :| 0 <= j < |l| && l[j] == x;
      assert l'[if j == |l| - 1 then i else j] == x;
    }
  }

  /** Replacing entry i by a value that is not in the list. */
  lemma ReplaceEntry(l: seq<u64>, i: nat, y: u64)
    requires i < |l| && NoDuplicates(l) && y !in l
    ensures var l' := l[i := y];
            NoDuplicates(l') && forall x :: x in l' <==> x == y || (x in l && x != l[i])
  {
    var l' := l[i := y];
    assert l'[i] == y;
    forall x | x in l && x != l[i]
      ensures x in l'
    {
      var j :| 0 <= j < |l| && l[j] == x;
      assert l'[j] == x;
    }
  }

  /** What is known about the fragment that stands for the i-th oldest transmission. */
  lemma FragAt(u: UnackedFrags, v: NetPkts, first: Option<u64>, last: u64, w: W.State, i: nat)
    requires Represents(u, first, last, w.live, w.next) && Ownership(u, v, w.nets) && i < |w.live|
    ensures first.Some? && W.InLap(w.live, w.next)
    ensures W.FindKey(w.live, Key(w.live[i].tx)) == Some(i)
    ensures Key(w.live[i].tx) in u && Stands(u[Key(w.live[i].tx)], w.live[i])
    ensures u[Key(w.live[i].tx)].netPkt in v
    ensures Key(w.live[i].tx) in v[u[Key(w.live[i].tx)].netPkt].unackedFrags
    ensures NoDuplicates(v[u[Key(w.live[i].tx)].netPkt].unackedFrags)
    ensures w.live[i].net < |w.nets|
    ensures var n := v[w.live[i].net]; w.nets[w.live[i].net] == W.Net(n.pkt, n.isInterest, n.didRetx)
  {
    KeyAt(w.live, w.next, i);
    assert Lists(u, u[Key(w.live[i].tx)].netPkt, v[u[Key(w.live[i].tx)].netPkt].unackedFrags);
  }

  lemma WindowInv(u: UnackedFrags, v: NetPkts, first: Option<u64>, last: u64, w: W.State)
    requires Represents(u, first, last, w.live, w.next) && Ownership(u, v, w.nets)
    ensures W.Inv(w)
  {
    forall i | 0 <= i < |w.live|
      ensures w.live[i].net < |w.nets|
    {
      FragAt(u, v, first, last, w, i);
    }
  }

  /** The list of a network packet holds the TxSequences of exactly its fragments in the window. */
  lemma ListIsTxs(u: UnackedFrags, v: NetPkts, first: Option<u64>, last: u64, w: W.State, i: nat)
    requires Represents(u, first, last, w.live, w.next) && Ownership(u, v, w.nets) && i < |w.live|
    ensures forall j :: 0 <= j < |w.live| ==>
              (w.live[j].net == w.live[i].net <==> Key(w.live[j].tx) in v[u[Key(w.live[i].tx)].netPkt].unackedFrags)
  {
  }

  /** After fragment i is taken off the list of its network packet, the list is empty exactly when
      no other fragment of the packet is left in the window. */
  lemma LastOfNet(u: UnackedFrags, v: NetPkts, first: Option<u64>, last: u64, w: W.State, i: nat,
                  list: seq<u64>)
    requires Represents(u, first, last, w.live, w.next) && Ownership(u, v, w.nets) && i < |w.live|
    requires forall x :: x in list <==>
               x in v[u[Key(w.live[i].tx)].netPkt].unackedFrags && x != Key(w.live[i].tx)
    ensures list == [] <==> W.TxsOf(W.Without(w.live, {w.live[i].tx}), w.live[i].net) == {}
  {
    W.OnlyFragment(w.live, i);
    ListIsTxs(u, v, first, last, w, i);
    KeyAt(w.live, w.next, i);
    if list != [] {
      assert list[0] in list;
      assert list[0] in u;
      var j := W.FindKey(w.live, list[0]).value;
      assert w.live[j].net == w.live[i].net && j != i;
    } else {
      forall j | 0 <= j < |w.live| && j != i
        ensures w.live[j].net != w.live[i].net
      {
        KeyAt(w.live, w.next, j);
        assert Key(w.live[j].tx) !in list;
      }
    }
  }

  /** Ownership once fragment k is off the list of its network packet and out of the map. */
  lemma TakenOffList(u: UnackedFrags, v: NetPkts, nets: seq<W.Net>, k: u64, list: seq<u64>)
    requires Ownership(u, v, nets) && k in u && NoDuplicates(list)
    requires forall x :: x in list <==> x in v[u[k].netPkt].unackedFrags && x != k
    ensures Ownership(u - {k}, v[u[k].netPkt := v[u[k].netPkt].(unackedFrags := list)], nets)
  {
    var v' := v[u[k].netPkt := v[u[k].netPkt].(unackedFrags := list)];
    forall n | n in v'
      ensures Lists(u - {k}, n, v'[n].unackedFrags)
    {
      assert Lists(u, n, v[n].unackedFrags);
    }
  }

  /** Ownership once all fragments of network packet n are out of the map. */
  lemma NetRemoved(u: UnackedFrags, v: NetPkts, nets: seq<W.Net>, n: nat, keys: set<u64>)
    requires Ownership(u, v, nets) && n in v
    requires forall k :: k in keys <==> k in v[n].unackedFrags
    ensures Ownership(u - keys, v - {n}, nets)
  {
    assert Lists(u, n, v[n].unackedFrags);
    forall m | m in v - {n}
      ensures Lists(u - keys, m, v[m].unackedFrags)
    {
      assert Lists(u, m, v[m].unackedFrags);
    }
  }

  /** Ownership once fragment k has moved to TxSequence q. */
  lemma Renumbered(u: UnackedFrags, v: NetPkts, nets: seq<W.Net>, k: u64, q: u64, uf: UnackedFrag,
                   list: seq<u64>)
    requires Ownership(u, v, nets) && k in u && q !in u && uf.netPkt == u[k].netPkt && NoDuplicates(list)
    requires forall x :: x in list <==> x == q || (x in v[uf.netPkt].unackedFrags && x != k)
    ensures uf.netPkt < |nets|
    ensures Ownership(u[q := uf] - {k}, v[uf.netPkt := v[uf.netPkt].(unackedFrags := list, didRetx := true)],
                      nets[uf.netPkt := nets[uf.netPkt].(didRetx := true)])
  {
    var u', v' := u[q := uf] - {k}, v[uf.netPkt := v[uf.netPkt].(unackedFrags := list, didRetx := true)];
    forall n | n in v'
      ensures Lists(u', n, v'[n].unackedFrags)
    {
      assert Lists(u, n, v[n].unackedFrags);
    }
  }

  /** Ownership once fragment k of network packet n is entered in the map and in the list. */
  lemma PutOnList(u: UnackedFrags, v: NetPkts, nets: seq<W.Net>, k: u64, uf: UnackedFrag)
    requires Ownership(u, v, nets) && k !in u && uf.netPkt in v
    ensures var n := uf.netPkt;
            Ownership(u[k := uf], v[n := v[n].(unackedFrags := v[n].unackedFrags + [k])], nets)
  {
    var n := uf.netPkt;
    var u', v' := u[k := uf], v[n := v[n].(unackedFrags := v[n].unackedFrags + [k])];
    assert Lists(u, n, v[n].unackedFrags);
    forall m | m in v'
      ensures Lists(u', m, v'[m].unackedFrags)
    {
      assert Lists(u, m, v[m].unackedFrags);
    }
  }

  /** A network packet without fragments joins. */
  lemma NetAdded(u: UnackedFrags, v: NetPkts, nets: seq<W.Net>, pkt: LpPacket, isInterest: bool)
    requires Ownership(u, v, nets)
    ensures |nets| !in v
    ensures Ownership(u, v[|nets| := NetPkt([], pkt, isInterest, false)], nets + [W.Net(pkt, isInterest, false)])
  {
    var v' := v[|nets| := NetPkt([], pkt, isInterest, false)];
    forall m | m in v'
      ensures Lists(u, m, v'[m].unackedFrags)
    {
      if m != |nets| {
        assert Lists(u, m, v[m].unackedFrags);
      }
    }
  }

  lemma NothingErased(live: seq<W.Frag>)
    ensures W.Without(live, {}) == live
    ensures Tracks(live, {}, [])
  {
    W.WithoutNone(live, {});
  }

  /** The entries of a list are fragments in the map, each listed once. */
  lemma ListedOnce(u: UnackedFrags, v: NetPkts, nets: seq<W.Net>, n: nat, list: seq<u64>, j: nat)
    requires Ownership(u, v, nets) && n in v && list == v[n].unackedFrags && j < |list|
    ensures list[j] in u && list[j] !in list[..j]
  {
    assert Lists(u, n, list);
    assert list[j] in list;
  }

  /** A TxSequence that is not in use is on no list. */
  lemma NotListed(u: UnackedFrags, v: NetPkts, nets: seq<W.Net>, n: nat, q: u64)
    requires Ownership(u, v, nets) && n in v && q !in u
    ensures q !in v[n].unackedFrags
  {
    assert Lists(u, n, v[n].unackedFrags);
  }

  lemma TracksOne(live: seq<W.Frag>, next: nat, i: nat)
    requires W.InLap(live, next) && i < |live|
    ensures Tracks(live, {live[i].tx}, [Key(live[i].tx)])
  {
    NothingErased(live);
    TrackOne(live, next, {}, [], i);
    assert {} + {live[i].tx} == {live[i].tx};
    assert [] + [Key(live[i].tx)] == [Key(live[i].tx)];
  }

  /** When everything on the list is erased, exactly the fragments of the network packet are. */
  lemma AllErased(u: UnackedFrags, v: NetPkts, first: Option<u64>, last: u64, w: W.State, i: nat,
                  dead: set<nat>, removed: seq<u64>)
    requires Represents(u, first, last, w.live, w.next) && Ownership(u, v, w.nets) && i < |w.live|
    requires Tracks(w.live, dead, removed)
    requires forall x :: x in removed <==> x in v[u[Key(w.live[i].tx)].netPkt].unackedFrags
    ensures W.Without(w.live, dead) == W.Without(w.live, W.TxsOf(w.live, w.live[i].net))
    ensures Tracks(w.live, W.TxsOf(w.live, w.live[i].net), removed)
  {
    ListIsTxs(u, v, first, last, w, i);
    var txs := W.TxsOf(w.live, w.live[i].net);
    forall g | 0 <= g < |w.live|
      ensures w.live[g].tx in txs <==> w.live[g].net == w.live[i].net
    {
      if w.live[g].tx in txs {
        var m :| 0 <= m < |w.live| && w.live[m].net == w.live[i].net && w.live[m].tx == w.live[g].tx;
        assert m == g;
      }
    }
    W.WithoutSame(w.live, dead, txs);
  }

  /** Looking up an Ack: the map knows a TxSequence exactly when the window has it. */
  lemma Lookup(u: UnackedFrags, first: Option<u64>, last: u64, live: seq<W.Frag>, next: nat, k: u64)
    requires Represents(u, first, last, live, next)
    ensures k in u <==> W.FindKey(live, k).Some?
  {
  }

  /** Iterating over the map from the first unacknowledged fragment. */
  lemma Iterate(u: UnackedFrags, first: Option<u64>, last: u64, live: seq<W.Frag>, next: nat, j: nat)
    requires Represents(u, first, last, live, next) && j < |live|
    ensures Key(live[j].tx) in u
    ensures first == Some(Key(live[0].tx))
    ensures CyclicAfter(u.Keys, Key(live[j].tx)) == Key(live[if j + 1 == |live| then 0 else j + 1].tx)
    ensures forall i :: 0 <= i < |live| && Key(live[i].tx) == Key(live[j].tx) ==> i == j
  {
    CyclicAfterIsNext(u.Keys, live, next, j);
    KeyAt(live, next, j);
    forall i | 0 <= i < |live| && Key(live[i].tx) == Key(live[j].tx)
      ensures i == j
    {
      KeyAt(live, next, i);
    }
  }

  // ---- whole operations ----

  /** The map after a retransmission: the fragment has a new number and a timer for it. */
  function Moved(u: UnackedFrags, k: u64, q: u64, pkt: LpPacket): UnackedFrags
    requires k in u
  {
    (u - {k})[q := UnackedFrag(pkt, Some(q), u[k].retxCount + 1, 0, u[k].netPkt)]
  }

  lemma TimersMoved(u: UnackedFrags, k: u64, q: u64, pkt: LpPacket)
    requires TimersMatch(u) && k in u
    ensures TimersMatch(Moved(u, k, q, pkt))
  {
  }

  lemma Acknowledged(u: UnackedFrags, v: NetPkts, first: Option<u64>, last: u64, w: W.State, i: nat, pos: nat)
    requires Represents(u, first, last, w.live, w.next) && Ownership(u, v, w.nets) && i < |w.live|
    requires var l := v[u[Key(w.live[i].tx)].netPkt].unackedFrags; pos < |l| && l[pos] == Key(w.live[i].tx)
    ensures w.live[i].net < |w.nets| && w.live[i].net in v
    ensures var k, n := Key(w.live[i].tx), w.live[i].net;
            var l := v[n].unackedFrags;
            var l' := l[pos := l[|l| - 1]][..|l| - 1];
            var s := W.Acknowledge(w, i);
            && Represents(u - {k}, FirstAfterErase(first, k, u.Keys - {k}), last, s.live, s.next)
            && Ownership(u - {k}, v[n := v[n].(unackedFrags := l')], s.nets)
            && (l' == [] <==> W.TxsOf(s.live, n) == {}) && W.Inv(s)
            && (TimersMatch(u) ==> TimersMatch(u - {k}))
            && v[n].didRetx == w.nets[n].didRetx
  {
    hide Represents;
    hide Ownership;
    hide Tracks;
    hide W.Without;
    hide W.TxsOf;
    hide W.InLap;
    hide NoDuplicates;
    hide Key;
    hide FirstAfterErase;
    FragAt(u, v, first, last, w, i);
    var l := v[w.live[i].net].unackedFrags;
    SwapPop(l, pos);
    var l' := l[pos := l[|l| - 1]][..|l| - 1];
    LastOfNet(u, v, first, last, w, i, l');
    EraseRepresents(u, first, last, w.live, w.next, i);
    TakenOffList(u, v, w.nets, Key(w.live[i].tx), l');
    WindowInv(u, v, first, last, w);
    W.AcknowledgeInv(w, i);
  }

  lemma ElementsAppend(u: UnackedFrags, removed: seq<u64>, k: u64)
    ensures u - Elements(removed + [k]) == u - Elements(removed) - {k}
  {
    assert Elements(removed + [k]) == Elements(removed) + {k};
  }

  lemma GivenUp(u: UnackedFrags, v: NetPkts, first: Option<u64>, last: u64, w: W.State, i: nat,
                u': UnackedFrags, first': Option<u64>, dead: set<nat>, removed: seq<u64>)
    requires Represents(u, first, last, w.live, w.next) && Ownership(u, v, w.nets) && i < |w.live|
    requires Represents(u', first', last, W.Without(w.live, dead), w.next) && Tracks(w.live, dead, removed)
    requires u' == u - Elements(removed)
    requires var k := Key(w.live[i].tx);
             forall x :: x in removed <==> x in v[u[k].netPkt].unackedFrags && x != k
    ensures w.live[i].net < |w.nets|
    ensures var k, s := Key(w.live[i].tx), W.GiveUp(w, w.live[i].net);
            && k in u' && first'.Some?
            && Represents(u' - {k}, FirstAfterErase(first', k, u'.Keys - {k}), last, s.live, s.next)
            && Ownership(u' - {k}, v - {w.live[i].net}, s.nets) && W.Inv(s)
            && (TimersMatch(u) ==> TimersMatch(u' - {k}))
            && Tracks(w.live, W.TxsOf(w.live, w.live[i].net), removed + [k])
  {
    hide Represents;
    hide Ownership;
    hide Tracks;
    hide W.Without;
    hide W.TxsOf;
    hide W.InLap;
    hide NoDuplicates;
    hide Key;
    hide FirstAfterErase;
    FragAt(u, v, first, last, w, i);
    var k, n := Key(w.live[i].tx), w.live[i].net;
    var t := EraseOne(u', first', last, w.live, w.next, dead, removed, k);
    AllErased(u, v, first, last, w, i, dead + {t}, removed + [k]);
    NetRemoved(u, v, w.nets, n, Elements(removed + [k]));
    ElementsAppend(u, removed, k);
    WindowInv(u' - {k}, v - {n}, FirstAfterErase(first', k, u'.Keys - {k}), last, W.GiveUp(w, n));
  }

  lemma Resent(u: UnackedFrags, v: NetPkts, first: Option<u64>, last: u64, w: W.State, i: nat, pos: nat)
    requires Represents(u, first, last, w.live, w.next) && Ownership(u, v, w.nets) && i < |w.live| && !W.Full(w)
    requires var l := v[u[Key(w.live[i].tx)].netPkt].unackedFrags; pos < |l| && l[pos] == Key(w.live[i].tx)
    ensures w.live[i].net < |w.nets| && w.live[i].net in v
    ensures var k, n, q, s := Key(w.live[i].tx), w.live[i].net, Key(w.next), W.Retransmit(w, i);
            && q !in u
            && Represents(Moved(u, k, q, W.Numbered(u[k].pkt, w.next)),
                          FirstAfterErase(first, k, u.Keys + {q} - {k}), q, s.live, s.next)
            && Ownership(Moved(u, k, q, W.Numbered(u[k].pkt, w.next)),
                         v[n := v[n].(unackedFrags := v[n].unackedFrags[pos := q], didRetx := true)], s.nets)
            && Tracks(w.live, {w.live[i].tx}, [k])
  {
    hide Represents;
    hide Ownership;
    hide Tracks;
    hide W.Without;
    hide W.TxsOf;
    hide W.InLap;
    hide NoDuplicates;
    hide Key;
    hide FirstAfterErase;
    FragAt(u, v, first, last, w, i);
    var f, k, n, q := w.live[i], Key(w.live[i].tx), w.live[i].net, Key(w.next);
    var pkt := W.Numbered(u[k].pkt, w.next);
    var uf := UnackedFrag(pkt, Some(q), u[k].retxCount + 1, 0, n);
    MoveRepresents(u, first, last, w.live, w.next, i, uf, W.Frag(w.next, f.origin, n, pkt, f.retx + 1, 0));
    NotListed(u, v, w.nets, n, q);
    ReplaceEntry(v[n].unackedFrags, pos, q);
    Renumbered(u, v, w.nets, k, q, uf, v[n].unackedFrags[pos := q]);
    assert u[q := uf] - {k} == Moved(u, k, q, pkt);
    assert u[q := uf].Keys - {k} == u.Keys + {q} - {k};
    TracksOne(w.live, w.next, i);
  }

  function Bumped(u: UnackedFrags, k: u64): UnackedFrags
    requires k in u
  {
    u[k := u[k].(nGreaterSeqAcks := u[k].nGreaterSeqAcks + 1)]
  }

  /** Counting one more overtaking Ack for the j-th oldest fragment. */
  lemma BumpOne(u: UnackedFrags, v: NetPkts, first: Option<u64>, last: u64, live: seq<W.Frag>, next: nat,
                nets: seq<W.Net>, j: nat)
    requires j < |live| && Represents(u, first, last, W.Overtake(live, j), next) && Ownership(u, v, nets)
    ensures Key(live[j].tx) in u && u[Key(live[j].tx)].nGreaterSeqAcks == live[j].greater
    ensures Represents(Bumped(u, Key(live[j].tx)), first, last, W.Overtake(live, j + 1), next)
    ensures Ownership(Bumped(u, Key(live[j].tx)), v, nets)
    ensures TimersMatch(u) ==> TimersMatch(Bumped(u, Key(live[j].tx)))
  {
    OvertakeNext(live, j);
    BumpRepresents(u, first, last, W.Overtake(live, j), next, j);
    BumpOwnership(u, v, nets, Key(live[j].tx));
  }

  lemma OvertakeNext(live: seq<W.Frag>, j: nat)
    requires j < |live|
    ensures W.Overtake(live, j)[j] == live[j]
    ensures W.Overtake(live, j + 1) == W.Overtake(live, j)[j := W.Overtaken(live[j])]
  {
  }

  lemma BumpOwnership(u: UnackedFrags, v: NetPkts, nets: seq<W.Net>, k: u64)
    requires Ownership(u, v, nets) && k in u
    ensures Ownership(Bumped(u, k), v, nets)
    ensures TimersMatch(u) ==> TimersMatch(Bumped(u, k))
  {
    forall n | n in v
      ensures Lists(Bumped(u, k), n, v[n].unackedFrags)
    {
      assert Lists(u, n, v[n].unackedFrags);
    }
  }

  lemma BumpRepresents(u: UnackedFrags, first: Option<u64>, last: u64, a: seq<W.Frag>, next: nat, j: nat)
    requires Represents(u, first, last, a, next) && j < |a|
    ensures Key(a[j].tx) in u
    ensures Represents(Bumped(u, Key(a[j].tx)), first, last, a[j := W.Overtaken(a[j])], next)
  {
    hide KeysMatch;
    hide W.FindKey;
    hide Key;
    var b := a[j := W.Overtaken(a[j])];
    assert Bumped(u, Key(a[j].tx)).Keys == u.Keys;
    BumpStands(u, a, b, next, j);
    BumpMatches(u.Keys, a, b);
  }

  lemma BumpMatches(keys: set<u64>, a: seq<W.Frag>, b: seq<W.Frag>)
    requires |a| == |b| && (forall i :: 0 <= i < |a| ==> a[i].tx == b[i].tx)
    requires KeysMatch(keys, a)
    ensures KeysMatch(keys, b)
  {
    forall k: u64
      ensures W.FindKey(a, k).Some? <==> W.FindKey(b, k).Some?
    {
      if W.FindKey(a, k).Some? {
        assert Key(b[W.FindKey(a, k).value].tx) == k;
      }
      if W.FindKey(b, k).Some? {
        assert Key(a[W.FindKey(b, k).value].tx) == k;
      }
    }
  }

  lemma BumpStands(u: UnackedFrags, a: seq<W.Frag>, b: seq<W.Frag>, next: nat, j: nat)
    requires W.InLap(a, next) && j < |a| && b == a[j := W.Overtaken(a[j])]
    requires forall i :: 0 <= i < |a| ==> Key(a[i].tx) in u && Stands(u[Key(a[i].tx)], a[i])
    ensures var u' := Bumped(u, Key(a[j].tx));
            forall i :: 0 <= i < |b| ==> Key(b[i].tx) in u' && Stands(u'[Key(b[i].tx)], b[i])
  {
    var u' := Bumped(u, Key(a[j].tx));
    forall i | 0 <= i < |b|
      ensures Key(b[i].tx) in u' && Stands(u'[Key(b[i].tx)], b[i])
    {
      KeyAt(a, next, i);
      KeyAt(a, next, j);
    }
  }

  lemma BatchTracked(o: W.Options, s: W.State, lost: seq<nat>, j: nat, removed: set<u64>, i: nat, more: seq<u64>)
    requires W.Inv(s) && W.Batch(s, lost, j, removed) && j < |lost|
    requires i < |s.live| && s.live[i].tx == lost[j] && W.Lose(o, s, i).Done?
    requires Tracks(s.live, W.Gone(o, s, i), more)
    ensures W.Batch(W.Lose(o, s, i).s, lost, j + 1, removed + Elements(more))
  {
    W.BatchStep(o, s, lost, j, removed, i, more);
  }

  lemma EmptyTogether(u: UnackedFrags, first: Option<u64>, last: u64, live: seq<W.Frag>, next: nat)
    requires Represents(u, first, last, live, next)
    ensures u.Keys == {} <==> live == []
  {
    NextKeyFree(u.Keys, first, live, next);
  }

  /** `m_unackedFrags.size() == 1` right after an insertion. */
  lemma SizeOne(keys: set<u64>, k: u64)
    requires k !in keys
    ensures |keys + {k}| == 1 <==> keys == {}
    ensures keys == {} ==> Least(keys + {k}) == k
  {
    if keys == {} {
      assert keys + {k} == {k};
    } else {
      assert |keys + {k}| == |keys| + 1;
    }
  }

  /** The first transmission of a fragment of the newest network packet. */
  lemma Sent(u: UnackedFrags, v: NetPkts, first: Option<u64>, last: u64, w: W.State, pkt: LpPacket)
    requires Represents(u, first, last, w.live, w.next) && Ownership(u, v, w.nets) && !W.Full(w)
    requires w.nets != [] && |w.nets| - 1 in v
    ensures var n, k, s := |w.nets| - 1, Key(w.next), W.Transmit(w, pkt).s;
            var u' := u[k := UnackedFrag(W.Numbered(pkt, w.next), Some(k), 0, 0, n)];
            && k !in u
            && Represents(u', if u.Keys == {} then Some(k) else first, k, s.live, s.next)
            && Ownership(u', v[n := v[n].(unackedFrags := v[n].unackedFrags + [k])], s.nets)
            && (TimersMatch(u) ==> TimersMatch(u'))
  {
    hide Represents;
    hide Ownership;
    hide Key;
    var n, k := |w.nets| - 1, Key(w.next);
    var uf := UnackedFrag(W.Numbered(pkt, w.next), Some(k), 0, 0, n);
    EmptyTogether(u, first, last, w.live, w.next);
    InsertRepresents(u, first, last, w.live, w.next, uf, W.Frag(w.next, w.next, n, uf.pkt, 0, 0));
    PutOnList(u, v, w.nets, k, uf);
  }

  /** The state before the first transmission. */
  lemma NothingSent()
    ensures Represents(map[], None, M64 - 1, [], 0)
    ensures Ownership(map[], map[], [])
    ensures TimersMatch(map[]) && W.Inv(W.INITIAL)
  {
  }

  /** The TxSequences of some transmissions. */
  predicate KeysOf(keys: seq<u64>, txs: seq<nat>) {
    |keys| == |txs| && forall m :: 0 <= m < |txs| ==> keys[m] == Key(txs[m])
  }

  lemma KeysAppend(keys: seq<u64>, txs: seq<nat>, tx: nat)
    requires KeysOf(keys, txs)
    ensures KeysOf(keys + [Key(tx)], txs + [tx])
  {
  }
}
