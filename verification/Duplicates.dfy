/** Duplicate suppression of LpReliability: Sequence numbers received within about one RTO. */
module Duplicates {
  import opened Basics

  /** times: m_recentRecvSeqs; queue: m_recentRecvSeqsQueue. */
  datatype Recent = Recent(times: map<u64, nat>, queue: seq<u64>)

  const NOTHING := Recent(map[], [])

  /** `m_recentRecvSeqs[s]`: a missing entry is created with the epoch of the clock. */
  function Touch(times: map<u64, nat>, s: u64): (r: map<u64, nat>)
    ensures s in r
  {
    if s in times then times else times[s := 0]
  }

  /** The loop that forgets old Sequences. */
  function Purge(r: Recent, now: nat, rto: nat): Recent
    decreases |r.queue|
  {
    if r.queue == [] then r
    else
      var front := r.queue[0];
      var times := Touch(r.times, front);
      if now > times[front] + rto then Purge(Recent(times - {front}, r.queue[1..]), now, rto)
      else Recent(times, r.queue)
  }

  /** One received Sequence: the new record, and whether it counts as a duplicate. */
  function Receive(r: Recent, s: u64, now: nat, rto: nat): (Recent, bool) {
    var p := Purge(r, now, rto);
    (Recent(if s in p.times then p.times else p.times[s := now], p.queue + [s]), s in r.times)
  }

  /** A fragment with Sequence s arrives at time now while the estimated RTO is rto. */
  datatype Arrival = Arrival(s: u64, now: nat, rto: nat)

  function Record(arrivals: seq<Arrival>): Recent
    decreases |arrivals|
  {
    if arrivals == [] then NOTHING
    else
      var a := arrivals[|arrivals| - 1];
      Receive(Record(arrivals[..|arrivals| - 1]), a.s, a.now, a.rto).0
  }

  /** Whether the j-th arrival is reported as a duplicate. */
  function ReportedDuplicate(arrivals: seq<Arrival>, j: nat): bool
    requires j < |arrivals|
  {
    Receive(Record(arrivals[..j]), arrivals[j].s, arrivals[j].now, arrivals[j].rto).1
  }

  predicate Queued(r: Recent) {
    forall s :: s in r.times ==> s in r.queue
  }

  lemma {:induction false} PurgeQueued(r: Recent, now: nat, rto: nat)
    requires Queued(r)
    ensures Queued(Purge(r, now, rto))
    ensures forall s :: s in Purge(r, now, rto).queue ==> s in r.queue
    decreases |r.queue|
  {
    if r.queue != [] {
      var front := r.queue[0];
      var times := Touch(r.times, front);
      if now > times[front] + rto {
        assert forall s :: s in r.queue ==> s == front || s in r.queue[1..];
        PurgeQueued(Recent(times - {front}, r.queue[1..]), now, rto);
      }
    }
  }

  /** Every remembered Sequence stands in the queue, and was received before. */
  lemma {:induction false} RecordQueued(arrivals: seq<Arrival>)
    ensures Queued(Record(arrivals))
    ensures forall s :: s in Record(arrivals).queue ==> exists i :: 0 <= i < |arrivals| && arrivals[i].s == s
    decreases |arrivals|
  {
    if arrivals != [] {
      var n := |arrivals| - 1;
      var r := Record(arrivals[..n]);
      RecordQueued(arrivals[..n]);
      PurgeQueued(r, arrivals[n].now, arrivals[n].rto);
      forall s | s in Record(arrivals).queue
        ensures exists i :: 0 <= i < |arrivals| && arrivals[i].s == s
      {
        if s in r.queue {
          var i :| 0 <= i < n && arrivals[..n][i].s == s;
          assert arrivals[i].s == s;
        } else {
          assert s == arrivals[n].s;
        }
      }
    }
  }

  /** A Sequence that is reported as a duplicate has really been received before. */
  lemma NoFalseDuplicate(arrivals: seq<Arrival>, j: nat)
    requires j < |arrivals| && ReportedDuplicate(arrivals, j)
    ensures exists i :: 0 <= i < j && arrivals[i].s == arrivals[j].s
  {
    RecordQueued(arrivals[..j]);
    var i :| 0 <= i < j && arrivals[..j][i].s == arrivals[j].s;
    assert arrivals[i].s == arrivals[j].s;
  }

  lemma {:induction false} PurgeKeeps(r: Recent, now: nat, rto: nat, s: u64, t: nat)
    requires s in r.times && r.times[s] == t && now <= t + rto
    ensures s in Purge(r, now, rto).times && Purge(r, now, rto).times[s] == t
    decreases |r.queue|
  {
    if r.queue != [] {
      var front := r.queue[0];
      var times := Touch(r.times, front);
      if now > times[front] + rto {
        PurgeKeeps(Recent(times - {front}, r.queue[1..]), now, rto, s, t);
      }
    }
  }

  /** The front of the queue is always remembered. */
  predicate FrontKnown(r: Recent) {
    r.queue != [] ==> r.queue[0] in r.times
  }

  /** Entries that `operator[]` creates are erased in the same round: purging reaches a forgotten
      Sequence only after it found something older than one RTO. */
  lemma {:induction false} PurgeForgets(r: Recent, now: nat, rto: nat, s: u64)
    requires s !in r.times && (FrontKnown(r) || now > rto)
    ensures s !in Purge(r, now, rto).times && FrontKnown(Purge(r, now, rto))
    decreases |r.queue|
  {
    if r.queue != [] {
      var front := r.queue[0];
      var times := Touch(r.times, front);
      if now > times[front] + rto {
        PurgeForgets(Recent(times - {front}, r.queue[1..]), now, rto, s);
      }
    }
  }

  lemma {:induction false} PurgeFront(r: Recent, now: nat, rto: nat)
    ensures FrontKnown(Purge(r, now, rto))
    decreases |r.queue|
  {
    if r.queue != [] {
      var front := r.queue[0];
      var times := Touch(r.times, front);
      if now > times[front] + rto {
        PurgeFront(Recent(times - {front}, r.queue[1..]), now, rto);
      }
    }
  }

  lemma RecordFront(arrivals: seq<Arrival>)
    ensures FrontKnown(Record(arrivals))
  {
    if arrivals != [] {
      var n := |arrivals| - 1;
      PurgeFront(Record(arrivals[..n]), arrivals[n].now, arrivals[n].rto);
    }
  }

  /** A Sequence reported as new is remembered with its arrival time for as long as no later
      arrival finds it older than the RTO of that moment. */
  lemma {:induction false} Remembered(arrivals: seq<Arrival>, i: nat, j: nat)
    requires i < j <= |arrivals| && !ReportedDuplicate(arrivals, i)
    requires forall m :: i < m < j ==> arrivals[m].now <= arrivals[i].now + arrivals[m].rto
    ensures var r := Record(arrivals[..j]);
            arrivals[i].s in r.times && r.times[arrivals[i].s] == arrivals[i].now
    decreases j
  {
    hide Purge;
    var a := arrivals[j - 1];
    assert arrivals[..j][..j - 1] == arrivals[..j - 1];
    var r := Record(arrivals[..j - 1]);
    if j - 1 == i {
      RecordFront(arrivals[..i]);
      PurgeForgets(r, a.now, a.rto, a.s);
    } else {
      Remembered(arrivals, i, j - 1);
      PurgeKeeps(r, a.now, a.rto, arrivals[i].s, arrivals[i].now);
    }
  }

  /** A Sequence reported as new is reported as a duplicate when it comes again no later than every
      RTO used in between. */
  lemma DuplicateCaught(arrivals: seq<Arrival>, i: nat, j: nat)
    requires i < j < |arrivals| && arrivals[i].s == arrivals[j].s && !ReportedDuplicate(arrivals, i)
    requires forall m, n :: i <= m <= n <= j ==> arrivals[m].now <= arrivals[n].now
    requires forall m :: i < m < j ==> arrivals[j].now - arrivals[i].now <= arrivals[m].rto
    ensures ReportedDuplicate(arrivals, j)
  {
    Remembered(arrivals, i, j);
  }

  // ---- forgetting ----

  /** The queue holds the Sequences of the last arrivals, in order. */
  predicate HoldsLast(queue: seq<u64>, arrivals: seq<Arrival>) {
    && |queue| <= |arrivals|
    && forall k :: 0 <= k < |queue| ==> queue[k] == arrivals[|arrivals| - |queue| + k].s
  }

  /** Each time is that of an arrival of the Sequence. */
  predicate TimesOfArrivals(times: map<u64, nat>, arrivals: seq<Arrival>) {
    forall s :: s in times ==> ArrivedAt(arrivals, s, times[s])
  }

  predicate ArrivedAt(arrivals: seq<Arrival>, s: u64, t: nat) {
    exists h :: 0 <= h < |arrivals| && arrivals[h].s == s && arrivals[h].now == t
  }

  lemma {:induction false} PurgeSuffix(r: Recent, now: nat, rto: nat)
    ensures |Purge(r, now, rto).queue| <= |r.queue|
    ensures Purge(r, now, rto).queue == r.queue[|r.queue| - |Purge(r, now, rto).queue|..]
    decreases |r.queue|
  {
    if r.queue != [] {
      var times := Touch(r.times, r.queue[0]);
      if now > times[r.queue[0]] + rto {
        PurgeSuffix(Recent(times - {r.queue[0]}, r.queue[1..]), now, rto);
      }
    }
  }

  lemma {:induction false} PurgeTimes(r: Recent, now: nat, rto: nat, s: u64)
    requires FrontKnown(r) || now > rto
    ensures var p := Purge(r, now, rto);
            s in p.times ==> s in r.times && p.times[s] == r.times[s]
    decreases |r.queue|
  {
    if r.queue != [] {
      var times := Touch(r.times, r.queue[0]);
      if now > times[r.queue[0]] + rto {
        PurgeTimes(Recent(times - {r.queue[0]}, r.queue[1..]), now, rto, s);
      }
    }
  }

  lemma ArrivedEarlier(arrivals: seq<Arrival>, a: Arrival, s: u64, t: nat)
    requires ArrivedAt(arrivals, s, t)
    ensures ArrivedAt(arrivals + [a], s, t)
  {
    var h :| 0 <= h < |arrivals| && arrivals[h].s == s && arrivals[h].now == t;
    assert (arrivals + [a])[h] == arrivals[h];
  }

  lemma LastStep(r: Recent, front: seq<Arrival>, a: Arrival)
    requires HoldsLast(r.queue, front)
    ensures HoldsLast(Receive(r, a.s, a.now, a.rto).0.queue, front + [a])
  {
    PurgeSuffix(r, a.now, a.rto);
    hide Purge;
  }

  lemma TimesStep(r: Recent, front: seq<Arrival>, a: Arrival)
    requires TimesOfArrivals(r.times, front) && FrontKnown(r)
    ensures TimesOfArrivals(Receive(r, a.s, a.now, a.rto).0.times, front + [a])
  {
    hide Purge;
    hide ArrivedAt;
    var times := Receive(r, a.s, a.now, a.rto).0.times;
    forall s | s in times
      ensures ArrivedAt(front + [a], s, times[s])
    {
      PurgeTimes(r, a.now, a.rto, s);
      if s in Purge(r, a.now, a.rto).times {
        ArrivedEarlier(front, a, s, r.times[s]);
      } else {
        ArrivedNow(front, a);
      }
    }
  }

  lemma ArrivedNow(front: seq<Arrival>, a: Arrival)
    ensures ArrivedAt(front + [a], a.s, a.now)
  {
    assert (front + [a])[|front|] == a;
  }

  lemma {:induction false} RecordIsLast(arrivals: seq<Arrival>)
    ensures HoldsLast(Record(arrivals).queue, arrivals) && TimesOfArrivals(Record(arrivals).times, arrivals)
    decreases |arrivals|
  {
    hide HoldsLast;
    hide TimesOfArrivals;
    hide Receive;
    if arrivals == [] {
      NothingHeld();
    } else {
      var n := |arrivals| - 1;
      RecordIsLast(arrivals[..n]);
      RecordFront(arrivals[..n]);
      LastStep(Record(arrivals[..n]), arrivals[..n], arrivals[n]);
      TimesStep(Record(arrivals[..n]), arrivals[..n], arrivals[n]);
      assert arrivals == arrivals[..n] + [arrivals[n]];
    }
  }

  lemma NothingHeld()
    ensures HoldsLast([], []) && TimesOfArrivals(map[], [])
  {
  }

  /** If each of the first k Sequences in the queue is forgotten or too old, purging removes them. */
  lemma {:induction false} PurgeRemoves(r: Recent, now: nat, rto: nat, k: nat)
    requires k <= |r.queue| && now > rto
    requires forall i :: 0 <= i < k && r.queue[i] in r.times ==> now > r.times[r.queue[i]] + rto
    ensures |Purge(r, now, rto).queue| <= |r.queue| - k
    decreases |r.queue|
  {
    if k == 0 {
      PurgeSuffix(r, now, rto);
    } else {
      var times := Touch(r.times, r.queue[0]);
      PurgeRemoves(Recent(times - {r.queue[0]}, r.queue[1..]), now, rto, k - 1);
    }
  }

  /** Everything that arrived up to i, and whatever carries the same Sequence, is older at m than the RTO
      of that moment. */
  predicate OldAt(arrivals: seq<Arrival>, i: nat, m: nat)
    requires i < m < |arrivals|
  {
    forall g, h :: 0 <= g <= i && 0 <= h < m && arrivals[h].s == arrivals[g].s ==>
      arrivals[m].now > arrivals[h].now + arrivals[m].rto
  }

  lemma ForgottenAt(arrivals: seq<Arrival>, i: nat, m: nat)
    requires i < m < |arrivals| && OldAt(arrivals, i, m)
    requires forall h :: i < h <= m ==> arrivals[h].s != arrivals[i].s
    ensures arrivals[i].s !in Record(arrivals[..m + 1]).times
  {
    hide Purge;
    var before, a := arrivals[..m], arrivals[m];
    var r := Record(before);
    RecordIsLast(before);
    RecordQueued(before);
    PurgeQueued(r, a.now, a.rto);
    PurgeSuffix(r, a.now, a.rto);
    assert a.now > arrivals[i].now + a.rto;
    var p := m - |r.queue|;
    var k := if p <= i then i + 1 - p else 0;
    forall x | 0 <= x < k && r.queue[x] in r.times
      ensures a.now > r.times[r.queue[x]] + a.rto
    {
      var h :| 0 <= h < m && before[h].s == r.queue[x] && before[h].now == r.times[r.queue[x]];
      assert arrivals[h].s == arrivals[p + x].s;
    }
    PurgeRemoves(r, a.now, a.rto, k);
    var q := Purge(r, a.now, a.rto);
    forall x | 0 <= x < |q.queue|
      ensures q.queue[x] != arrivals[i].s
    {
      var y := |r.queue| - |q.queue| + x;
      assert q.queue[x] == r.queue[y] == arrivals[p + y].s;
    }
    assert arrivals[..m + 1][..m] == before;
  }

  lemma {:induction false} StaysForgotten(arrivals: seq<Arrival>, s: u64, m: nat, j: nat)
    requires m <= j <= |arrivals| && s !in Record(arrivals[..m]).times
    requires forall h :: m <= h < j ==> arrivals[h].s != s
    ensures s !in Record(arrivals[..j]).times
    decreases j
  {
    hide Purge;
    if m < j {
      StaysForgotten(arrivals, s, m, j - 1);
      assert arrivals[..j][..j - 1] == arrivals[..j - 1];
      RecordFront(arrivals[..j - 1]);
      PurgeForgets(Record(arrivals[..j - 1]), arrivals[j - 1].now, arrivals[j - 1].rto, s);
    }
  }

  /** A Sequence last received at i is forgotten by an arrival m that finds it, and everything queued before
      it, older than one RTO: when it comes again it is reported as new. */
  lemma ForgottenIsNew(arrivals: seq<Arrival>, i: nat, m: nat, j: nat)
    requires i < m < j < |arrivals| && arrivals[j].s == arrivals[i].s && OldAt(arrivals, i, m)
    requires forall h :: i < h < j ==> arrivals[h].s != arrivals[i].s
    ensures !ReportedDuplicate(arrivals, j)
  {
    ForgottenAt(arrivals, i, m);
    StaysForgotten(arrivals, arrivals[i].s, m + 1, j);
  }
}
