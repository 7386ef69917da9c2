/** The schedule of congestion marks over every run of checks. */
module Congestion {
  import opened Basics
  import opened SendPath

  /** A reading of the send queue length (negative if not available) at some time. */
  datatype Reading = Reading(queueLength: int, now: nat)

  /** m: the marking state; start: when the current incident began; marks: when packets were marked
      in it. */
  datatype Incident = Incident(m: Marking, start: nat, marks: seq<nat>)

  function Observe(o: MarkingOptions, i: Incident, r: Reading): Incident {
    var (m, marked) := Check(o, i.m, r.queueLength, r.now);
    Incident(m,
             if i.m.nextMark.None? then r.now else i.start,
             if i.m.nextMark.None? || m.nextMark.None? then [] else if marked then i.marks + [r.now] else i.marks)
  }

  function After(o: MarkingOptions, rs: seq<Reading>): Incident
    decreases |rs|
  {
    if rs == [] then Incident(Marking(None, 0), 0, [])
    else Observe(o, After(o, rs[..|rs| - 1]), rs[|rs| - 1])
  }

  /** The sum of base / sqrt(k) for k from 1 to n, each rounded down. */
  function Schedule(base: nat, n: nat): nat {
    if n == 0 then 0 else Schedule(base, n - 1) + Interval(base, n)
  }

  /** The interval is determined by its squares. */
  lemma IntervalUnique(base: nat, n: nat, i: nat)
    requires n > 0 && IsInterval(base, n, i)
    ensures Interval(base, n) == i
  {
    var j := Interval(base, n);
    if i < j {
      SquareGrows(i + 1, j, n);
    }
    if j < i {
      SquareGrows(j + 1, i, n);
    }
  }

  lemma SquareGrows(a: nat, b: nat, k: nat)
    requires a <= b
    ensures a * a * k <= b * b * k
  {
    assert a * a <= a * b <= b * b;
  }

  lemma FirstInterval(base: nat)
    ensures Interval(base, 1) == base
  {
    IntervalUnique(base, 1, base);
  }

  ghost predicate OnSchedule(o: MarkingOptions, i: Incident) {
    && |i.marks| == i.m.count
    && (i.m.nextMark.None? ==> i.m.count == 0)
    && (i.m.nextMark.Some? ==> i.m.nextMark.value == i.start + Schedule(o.base, i.m.count + 1))
    && (forall n :: 0 <= n < |i.marks| ==> i.marks[n] >= i.start + Schedule(o.base, n + 1))
  }

  /** In every run of checks: outside an incident no mark is counted; in an incident that began at
      start, the n-th mark is due at, and comes no earlier than, start plus the first n intervals. */
  lemma {:induction false} MarkingSchedule(o: MarkingOptions, rs: seq<Reading>)
    ensures OnSchedule(o, After(o, rs))
    decreases |rs|
  {
    hide Interval;
    if rs != [] {
      var n := |rs| - 1;
      MarkingSchedule(o, rs[..n]);
      FirstInterval(o.base);
      assert Schedule(o.base, 1) == Schedule(o.base, 0) + Interval(o.base, 1);
    }
  }

  /** In every run, a reading marks the packet exactly when it is available, above the threshold, in an
      incident, and the next mark of the schedule is due. */
  lemma MarkedExactlyWhenDue(o: MarkingOptions, rs: seq<Reading>, r: Reading)
    ensures var i := After(o, rs);
            Check(o, i.m, r.queueLength, r.now).1 <==>
            && r.queueLength > o.threshold && i.m.nextMark.Some?
            && r.now >= i.start + Schedule(o.base, |i.marks| + 1)
  {
    MarkingSchedule(o, rs);
  }

  /** In every run, an incident begins with the first reading above the threshold, and ends with the
      first available one that is not. */
  lemma IncidentExtent(o: MarkingOptions, rs: seq<Reading>, r: Reading)
    ensures var i, j := After(o, rs), After(o, rs + [r]);
            && (r.queueLength < 0 ==> j.m == i.m)
            && (r.queueLength > o.threshold ==> j.m.nextMark.Some?)
            && (r.queueLength > o.threshold && i.m.nextMark.None? ==> j.start == r.now && j.marks == [])
            && (0 <= r.queueLength <= o.threshold ==> j.m == Marking(None, 0))
            && (i.m.nextMark.Some? && j.m.nextMark.Some? ==> j.start == i.start && i.marks <= j.marks)
  {
    assert (rs + [r])[..|rs|] == rs;
    MarkingSchedule(o, rs);
  }
}
