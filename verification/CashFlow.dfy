/**
 The cash-flow timeline and its evaluation (src/internal/sweep/sweep.go, evaluate): the
 events are sorted, outflow first within an instant, and the peak of the running total
 is the cash checking must hold.
 */
module CashFlow {
  import opened Common
  import opened Calendar
  import opened Sequences
  import opened StableSort

  datatype EventDirection = EventOut | EventIn

  /** runningTotal and peak are what evaluate fills in; dueOn is set on a row moved to the run instant. */
  datatype Event = Event(date: Instant, name: string, direction: EventDirection, amount: real,
                         runningTotal: real, peak: bool, dueOn: Option<Date>)

  function SortKey(e: Event): Key {
    Key(e.date, if e.direction.EventOut? then 0 else 1)
  }

  /** The comparison evaluate hands to the sort: earlier first, then outflow before inflow. */
  predicate SortsBefore(a: Event, b: Event) {
    if a.date != b.date then a.date < b.date
    else a.direction.EventOut? && b.direction.EventIn?
  }

  lemma SortKeyIsTheComparison(a: Event, b: Event)
    ensures Before(SortKey(a), SortKey(b)) <==> SortsBefore(a, b)
  {
  }

  // ------------------------------------------------------- running totals

  function Signed(e: Event): real {
    if e.direction.EventIn? then -e.amount else e.amount
  }

  function Total(s: seq<Event>): real {
    if s == [] then 0.0 else Total(s[..|s| - 1]) + Signed(s[|s| - 1])
  }

  /** The highest running total, and never less than the empty one. */
  function Peak(s: seq<Event>): real {
    if s == [] then 0.0 else RealMax(Peak(s[..|s| - 1]), Total(s))
  }

  lemma {:induction false} PeakBoundsPrefixes(s: seq<Event>, n: nat)
    requires n <= |s|
    ensures Total(s[..n]) <= Peak(s)
  {
    if n == |s| {
      assert s[..n] == s;
    } else {
      PeakBoundsPrefixes(s[..|s| - 1], n);
      assert s[..|s| - 1][..n] == s[..n];
    }
  }

  lemma {:induction false} PeakIsReached(s: seq<Event>) returns (n: nat)
    ensures n <= |s| && Total(s[..n]) == Peak(s)
  {
    if s == [] || Peak(s[..|s| - 1]) < Total(s) {
      n := |s|;
      assert s[..n] == s;
    } else {
      n := PeakIsReached(s[..|s| - 1]);
      assert s[..|s| - 1][..n] == s[..n];
    }
  }

  // ------------------------------------------------------------- evaluate

  function RunningTotal(s: seq<Event>, i: nat): real
    requires i < |s|
  {
    Total(s[..i + 1])
  }

  /** The row evaluate marks: the last to raise the peak, -1 when none does. */
  function PeakRow(s: seq<Event>): (i: int)
    ensures -1 <= i < |s|
  {
    if s == [] then -1
    else if Total(s) > Peak(s[..|s| - 1]) then |s| - 1
    else PeakRow(s[..|s| - 1])
  }

  /** The marked row is the first whose running total is the figure; there is none when nothing is required. */
  lemma {:induction false} PeakRowSetsTheFigure(s: seq<Event>)
    ensures PeakRow(s) == -1 <==> Peak(s) == 0.0
    ensures PeakRow(s) >= 0 ==>
              && RunningTotal(s, PeakRow(s)) == Peak(s) > 0.0
              && forall j :: 0 <= j < PeakRow(s) ==> RunningTotal(s, j) < Peak(s)
  {
    if s != [] {
      var rest := s[..|s| - 1];
      PeakRowSetsTheFigure(rest);
      PeakBoundsPrefixes(rest, 0);
      assert s[..|s|] == s;
      forall j | 0 <= j < |rest| ensures RunningTotal(s, j) == RunningTotal(rest, j) <= Peak(rest) {
        assert s[..j + 1] == rest[..j + 1];
        PeakBoundsPrefixes(rest, j + 1);
      }
    }
  }

  lemma WalkOneRow(s: seq<Event>, i: nat)
    requires i < |s|
    ensures Total(s[..i + 1]) == Total(s[..i]) + Signed(s[i])
    ensures Peak(s[..i + 1]) == RealMax(Peak(s[..i]), Total(s[..i + 1]))
    ensures PeakRow(s[..i + 1]) == (if Total(s[..i + 1]) > Peak(s[..i]) then i else PeakRow(s[..i]))
  {
    assert s[..i + 1][..i] == s[..i];
  }

  /** evaluate: a sorted copy, each row carrying its running total, the deciding row marked. */
  method Evaluate(events: seq<Event>) returns (required: real, ordered: seq<Event>)
    ensures required == Peak(Sorted(events, SortKey))
    ensures |ordered| == |events|
    ensures var s := Sorted(events, SortKey);
            forall i :: 0 <= i < |ordered| ==>
              ordered[i] == s[i].(runningTotal := RunningTotal(s, i), peak := i == PeakRow(s))
  {
    hide Sorted, Total, Peak, PeakRow;
    var a := new Event[|events|](i requires 0 <= i < |events| => events[i]);
    assert a[..] == events;
    SliceStable(a, SortKey);
    ghost var s := a[..];
    var running := 0.0;
    required := 0.0;
    var peak := -1;
    EmptyWalk(s);
    for i := 0 to a.Length
      invariant forall j :: i <= j < a.Length ==> a[j] == s[j]
      invariant forall j :: 0 <= j < i ==> a[j] == s[j].(runningTotal := RunningTotal(s, j), peak := false)
      invariant running == Total(s[..i]) && required == Peak(s[..i]) && peak == PeakRow(s[..i])
    {
      WalkOneRow(s, i);
      if a[i].direction.EventIn? {
        running := running - a[i].amount;
      } else {
        running := running + a[i].amount;
      }
      a[i] := a[i].(runningTotal := running, peak := false);
      if running > required {
        required := running;
        peak := i;
      }
    }
    assert s[..a.Length] == s;
    if peak >= 0 {
      a[peak] := a[peak].(peak := true);
    }
    ordered := a[..];
  }

  lemma EmptyWalk(s: seq<Event>)
    ensures Total(s[..0]) == 0.0 && Peak(s[..0]) == 0.0 && PeakRow(s[..0]) == -1
  {
  }

  // ------------------------------------------------- the order-free figure

  /** What one event weighs at instant t under the worst order: outflows up to t, inflows before it. */
  function Weight(e: Event, t: Instant): real {
    if e.direction.EventOut? then (if e.date <= t then e.amount else 0.0)
    else (if e.date < t then -e.amount else 0.0)
  }

  /** Outflows dated up to t less inflows dated before t. No order of the events enters into it. */
  function Exposure(events: seq<Event>, t: Instant): real {
    if events == [] then 0.0
    else Exposure(events[..|events| - 1], t) + Weight(events[|events| - 1], t)
  }

  lemma {:induction false} ExposureOfConcat(a: seq<Event>, b: seq<Event>, t: Instant)
    ensures Exposure(a + b, t) == Exposure(a, t) + Exposure(b, t)
  {
    if b == [] {
      assert a + b == a;
    } else {
      ExposureOfConcat(a, b[..|b| - 1], t);
      assert (a + b)[..|a + b| - 1] == a + b[..|b| - 1];
    }
  }

  lemma ExposureWithoutOne(s: seq<Event>, j: nat, t: Instant)
    requires j < |s|
    ensures Exposure(s, t) == Exposure(Without(s, j), t) + Weight(s[j], t)
  {
    hide Exposure, Weight;
    ExposureOfConcat(s[..j], s[j + 1..], t);
    ExposureOfConcat(s[..j], [s[j]] + s[j + 1..], t);
    ExposureOfConcat([s[j]], s[j + 1..], t);
    ExposureOfOne(s[j], t);
    assert s == s[..j] + ([s[j]] + s[j + 1..]);
    assert Without(s, j) == s[..j] + s[j + 1..];
  }

  lemma {:induction false} ExposureIgnoresOrder(a: seq<Event>, b: seq<Event>, t: Instant)
    requires multiset(a) == multiset(b)
    ensures Exposure(a, t) == Exposure(b, t)
  {
    if a == [] {
      assert |multiset(b)| == 0;
    } else {
      hide Exposure, Weight, Without;
      var n := |a| - 1;
      assert a[n] in multiset(b);
      var j :| 0 <= j < |b| && b[j] == a[n];
      WithoutTakesOneOut(a, n);
      WithoutTakesOneOut(b, j);
      ExposureIgnoresOrder(Without(a, n), Without(b, j), t);
      ExposureWithoutOne(a, n, t);
      ExposureWithoutOne(b, j, t);
    }
  }

  lemma ExposureOfOne(e: Event, t: Instant)
    ensures Exposure([e], t) == Weight(e, t)
  {
    assert [e][..0] == [];
  }

  predicate NonNegative(s: seq<Event>) {
    forall i :: 0 <= i < |s| ==> s[i].amount >= 0.0
  }

  /** No outflow clears ahead of an inflow dated before it. Anything else may change places. */
  ghost predicate KeepsOutflowsBehind(s: seq<Event>) {
    forall i, j :: 0 <= i < j < |s| && s[i].direction.EventOut? && s[j].direction.EventIn? ==> s[i].date <= s[j].date
  }

  ghost predicate ClearingOrder(p: seq<Event>, events: seq<Event>) {
    multiset(p) == multiset(events) && KeepsOutflowsBehind(p)
  }

  /** Required checking, as evaluate computes it. */
  function Required(events: seq<Event>): real {
    Peak(Sorted(events, SortKey))
  }

  // Lemmas about one sequence.

  /** Where every outflow is dated by t, a total is at most the exposure. */
  lemma {:induction false} EarlierPartWeighsAtLeastItsTotal(s: seq<Event>, t: Instant)
    requires NonNegative(s) && forall i :: 0 <= i < |s| && s[i].direction.EventOut? ==> s[i].date <= t
    ensures Total(s) <= Exposure(s, t)
  {
    if s != [] {
      EarlierPartWeighsAtLeastItsTotal(s[..|s| - 1], t);
    }
  }

  lemma {:induction false} LaterPartWeighsNothingBelowZero(s: seq<Event>, t: Instant)
    requires NonNegative(s) && forall i :: 0 <= i < |s| && s[i].direction.EventIn? ==> t <= s[i].date
    ensures Exposure(s, t) >= 0.0
  {
    if s != [] {
      LaterPartWeighsNothingBelowZero(s[..|s| - 1], t);
    }
  }

  /** An instant by which every outflow is dated, and which is some outflow's own date unless there is none. */
  lemma {:induction false} LastOutflow(s: seq<Event>) returns (t: Instant, i: int)
    ensures forall j :: 0 <= j < |s| && s[j].direction.EventOut? ==> s[j].date <= t
    ensures -1 <= i < |s|
    ensures if i == -1 then forall j :: 0 <= j < |s| ==> s[j].direction.EventIn?
            else s[i].direction.EventOut? && s[i].date == t
  {
    t, i := 0, -1;
    if s != [] {
      var n := |s| - 1;
      t, i := LastOutflow(s[..n]);
      if s[n].direction.EventOut? && (i == -1 || t < s[n].date) {
        t, i := s[n].date, n;
      }
    }
  }

  lemma {:induction false} InflowsTotalNothing(s: seq<Event>)
    requires NonNegative(s) && forall j :: 0 <= j < |s| ==> s[j].direction.EventIn?
    ensures Total(s) <= 0.0
  {
    if s != [] {
      InflowsTotalNothing(s[..|s| - 1]);
    }
  }

  /** With outflows behind earlier inflows, a running total is at most the exposure at its last outflow's date. */
  lemma RunningTotalIsExposed(p: seq<Event>, n: nat) returns (t: Instant)
    requires NonNegative(p) && KeepsOutflowsBehind(p) && n <= |p|
    ensures Total(p[..n]) <= RealMax(0.0, Exposure(p, t))
    ensures Total(p[..n]) > 0.0 ==> exists i :: 0 <= i < n && p[i].date == t
  {
    hide Exposure, Weight, Total, Signed;
    var i;
    t, i := LastOutflow(p[..n]);
    if i == -1 {
      InflowsTotalNothing(p[..n]);
    } else {
      assert p[i].date == t;
      EarlierPartWeighsAtLeastItsTotal(p[..n], t);
      LaterPartWeighsNothingBelowZero(p[n..], t);
      ExposureOfConcat(p[..n], p[n..], t);
      assert p == p[..n] + p[n..];
    }
  }

  /** Whether an event is weighed in full at t: everything earlier, and the outflows of t itself. */
  predicate Counted(e: Event, t: Instant) {
    e.date < t || (e.date == t && e.direction.EventOut?)
  }

  lemma {:induction false} CountedPartWeighsItsTotal(s: seq<Event>, t: Instant)
    requires forall i :: 0 <= i < |s| ==> Counted(s[i], t)
    ensures Exposure(s, t) == Total(s)
  {
    if s != [] {
      CountedPartWeighsItsTotal(s[..|s| - 1], t);
    }
  }

  lemma {:induction false} UncountedPartWeighsNothing(s: seq<Event>, t: Instant)
    requires forall i :: 0 <= i < |s| ==> !Counted(s[i], t)
    ensures Exposure(s, t) == 0.0
  {
    if s != [] {
      UncountedPartWeighsNothing(s[..|s| - 1], t);
    }
  }

  lemma {:induction false} CountedComeFirst(s: seq<Event>, t: Instant) returns (n: nat)
    requires Ordered(s, SortKey)
    ensures n <= |s|
    ensures forall i :: 0 <= i < n ==> Counted(s[i], t)
    ensures forall i :: n <= i < |s| ==> !Counted(s[i], t)
  {
    n := |s|;
    while n > 0 && !Counted(s[n - 1], t)
      invariant n <= |s|
      invariant forall i :: n <= i < |s| ==> !Counted(s[i], t)
    {
      n := n - 1;
    }
    if n > 0 {
      forall i | 0 <= i < n ensures Counted(s[i], t) {
        assert !Before(SortKey(s[n - 1]), SortKey(s[i]));
      }
    }
  }

  /** Outflow first, every exposure is a running total that the walk passes through. */
  lemma ExposureIsReached(s: seq<Event>, t: Instant)
    requires Ordered(s, SortKey)
    ensures Exposure(s, t) <= Peak(s)
  {
    var n := CountedComeFirst(s, t);
    CountedPartWeighsItsTotal(s[..n], t);
    UncountedPartWeighsNothing(s[n..], t);
    ExposureOfConcat(s[..n], s[n..], t);
    assert s == s[..n] + s[n..];
    PeakBoundsPrefixes(s, n);
  }

  lemma OrderedKeepsOutflowsBehind(s: seq<Event>)
    requires Ordered(s, SortKey)
    ensures KeepsOutflowsBehind(s)
  {
    forall i, j | 0 <= i < j < |s| ensures s[i].date <= s[j].date {
      assert !Before(SortKey(s[j]), SortKey(s[i]));
    }
  }

  // The main results.

  /**
   The peak is an order-free figure: no instant is exposed to more, and unless nothing is
   required some event's own date is exposed to exactly that.
   */
  lemma PeakIsWorstExposure(events: seq<Event>)
    requires NonNegative(events)
    ensures Required(events) >= 0.0
    ensures forall t :: Exposure(events, t) <= Required(events)
    ensures Required(events) == 0.0 || exists e :: e in events && Exposure(events, e.date) == Required(events)
  {
    hide Sorted, Ordered;
    var s := Sorted(events, SortKey);
    SortedIsOrdered(events, SortKey);
    SameEventsStayNonNegative(events, s);
    PeakBoundsPrefixes(s, 0);
    forall t ensures Exposure(events, t) <= Required(events) {
      ExposureIsReached(s, t);
      ExposureIgnoresOrder(events, s, t);
    }
    if Required(events) > 0.0 {
      var n := PeakIsReached(s);
      OrderedKeepsOutflowsBehind(s);
      var t := RunningTotalIsExposed(s, n);
      ExposureIgnoresOrder(events, s, t);
      var i :| 0 <= i < n && s[i].date == t;
      assert s[i] in multiset(events);
      assert Exposure(events, s[i].date) == Required(events);
    }
  }

  lemma SameEventsStayNonNegative(events: seq<Event>, p: seq<Event>)
    requires NonNegative(events) && multiset(p) == multiset(events)
    ensures NonNegative(p)
  {
    forall i | 0 <= i < |p| ensures p[i].amount >= 0.0 {
      assert p[i] in multiset(events);
    }
  }

  /** No clearing order reaches higher than the figure computed from the pessimistic one. */
  lemma PeakBoundsEveryClearingOrder(events: seq<Event>, p: seq<Event>)
    requires NonNegative(events) && ClearingOrder(p, events)
    ensures Peak(p) <= Required(events)
  {
    hide Required, Exposure;
    PeakIsWorstExposure(events);
    SameEventsStayNonNegative(events, p);
    var n := PeakIsReached(p);
    var t := RunningTotalIsExposed(p, n);
    ExposureIgnoresOrder(events, p, t);
  }

  /** The balance left after each step of a walk that starts at opening. */
  ghost predicate StaysAtLeast(floor: real, opening: real, p: seq<Event>) {
    forall n :: 0 <= n <= |p| ==> opening - Total(p[..n]) >= floor
  }

  /** An opening balance keeps every clearing order at or above the floor exactly when it covers floor + peak. */
  lemma LeastSafeOpening(events: seq<Event>, opening: real, floor: real)
    requires NonNegative(events)
    ensures (forall p :: ClearingOrder(p, events) ==> StaysAtLeast(floor, opening, p)) <==>
            opening >= floor + Required(events)
  {
    if opening >= floor + Required(events) {
      forall p | ClearingOrder(p, events) ensures StaysAtLeast(floor, opening, p) {
        PeakBoundsEveryClearingOrder(events, p);
        forall n | 0 <= n <= |p| ensures opening - Total(p[..n]) >= floor {
          PeakBoundsPrefixes(p, n);
        }
      }
    } else {
      var s := Sorted(events, SortKey);
      SortedIsOrdered(events, SortKey);
      OrderedKeepsOutflowsBehind(s);
      assert ClearingOrder(s, events);
      var n := PeakIsReached(s);
      assert !(opening - Total(s[..n]) >= floor);
    }
  }

  /** Raising every exposure never lowers the figure: what the degradation results rest on. */
  lemma RequiredFollowsExposure(events: seq<Event>, worse: seq<Event>)
    requires NonNegative(events) && NonNegative(worse)
    requires forall t :: Exposure(events, t) <= Exposure(worse, t)
    ensures Required(events) <= Required(worse)
  {
    hide Required;
    PeakIsWorstExposure(events);
    PeakIsWorstExposure(worse);
    if Required(events) > 0.0 {
      var e :| e in events && Exposure(events, e.date) == Required(events);
      assert Exposure(events, e.date) <= Exposure(worse, e.date) <= Required(worse);
    }
  }
}
