/**
 Clearing within one calendar day. evaluate orders events by instant (src/internal/sweep/sweep.go),
 and its rule is about days: never assume that a deposit clears before a debit posted the same day.
 A reading says which day an instant stands for; under it, any order within a day is possible.
 */
module ClearingDays {
  import opened Calendar
  import opened Sequences
  import opened StableSort
  import opened CashFlow

  type Reading = Instant -> Date

  /** A midnight is its own date's, and nothing dated by it stands for a later one. */
  ghost predicate IsReading(day: Reading) {
    && (forall o: Date {:trigger Midnight(o)} :: day(Midnight(o)) == o)
    && forall t, o: Date {:trigger day(t), Midnight(o)} :: t <= Midnight(o) ==> day(t) <= o
  }

  /** The events may clear in any order within a day, never a later day before an earlier one. */
  ghost predicate InDayOrder(day: Reading, s: seq<Event>) {
    forall i, j :: 0 <= i < j < |s| ==> day(s[i].date) <= day(s[j].date)
  }

  ghost predicate DayOrder(day: Reading, p: seq<Event>, events: seq<Event>) {
    multiset(p) == multiset(events) && InDayOrder(day, p)
  }

  /** The figure covers every order the days allow. */
  ghost predicate CoversEveryDayOrder(day: Reading, events: seq<Event>) {
    forall p :: DayOrder(day, p, events) ==> Peak(p) <= Required(events)
  }

  // ------------------------------------------------- the figure by the day

  /** The events with nothing left of their times of day. */
  function Redated(day: Reading, events: seq<Event>): (r: seq<Event>)
    ensures |r| == |events|
  {
    seq(|events|, i requires 0 <= i < |events| => events[i].(date := Midnight(day(events[i].date))))
  }

  /** What checking must hold when any order within a day is possible. */
  function DayRequired(day: Reading, events: seq<Event>): real {
    Required(Redated(day, events))
  }

  function DayKey(day: Reading): Event -> Key {
    (e: Event) => Key(day(e.date), if e.direction.EventOut? then 0 else 1)
  }

  /** Dates do not enter into a running total. */
  lemma {:induction false} RedatingKeepsTotals(day: Reading, p: seq<Event>)
    ensures Total(Redated(day, p)) == Total(p) && Peak(Redated(day, p)) == Peak(p)
  {
    if p != [] {
      var n := |p| - 1;
      RedatingKeepsTotals(day, p[..n]);
      assert Redated(day, p)[..n] == Redated(day, p[..n]);
    }
  }

  lemma RedatingWithoutOne(day: Reading, s: seq<Event>, j: nat)
    requires j < |s|
    ensures Redated(day, Without(s, j)) == Without(Redated(day, s), j)
  {
  }

  lemma {:induction false} RedatingKeepsElements(day: Reading, a: seq<Event>, b: seq<Event>)
    requires multiset(a) == multiset(b)
    ensures multiset(Redated(day, a)) == multiset(Redated(day, b))
    decreases |a|
  {
    if a == [] {
      assert |multiset(b)| == 0;
      assert Redated(day, a) == Redated(day, b);
    } else {
      hide Without, Redated;
      var n := |a| - 1;
      assert a[n] in multiset(b);
      var j :| 0 <= j < |b| && b[j] == a[n];
      WithoutTakesOneOut(a, n);
      WithoutTakesOneOut(b, j);
      RedatingKeepsElements(day, Without(a, n), Without(b, j));
      RedatingOneOut(day, a, n);
      RedatingOneOut(day, b, j);
    }
  }

  lemma RedatingOneOut(day: Reading, s: seq<Event>, j: nat)
    requires j < |s|
    ensures multiset(Redated(day, s)) ==
            multiset(Redated(day, Without(s, j))) + multiset{s[j].(date := Midnight(day(s[j].date)))}
  {
    hide Midnight;
    RedatingWithoutOne(day, s, j);
    WithoutTakesOneOut(Redated(day, s), j);
    assert Redated(day, s)[j] in multiset(Redated(day, s));
  }

  lemma MidnightsAscend(a: Date, b: Date)
    ensures Midnight(a) <= Midnight(b) <==> a <= b
  {
  }

  /** The pessimistic order by the day: outflow first within each. */
  lemma PessimisticDayOrder(day: Reading, events: seq<Event>) returns (p: seq<Event>)
    ensures DayOrder(day, p, events) && Ordered(Redated(day, p), SortKey)
  {
    hide Sorted, Midnight;
    p := Sorted(events, DayKey(day));
    SortedIsOrdered(events, DayKey(day));
    var r := Redated(day, p);
    forall i, j | 0 <= i < j < |p|
      ensures day(p[i].date) <= day(p[j].date) && !Before(SortKey(r[j]), SortKey(r[i]))
    {
      assert !Before(DayKey(day)(p[j]), DayKey(day)(p[i]));
      MidnightsAscend(day(p[i].date), day(p[j].date));
      MidnightsAscend(day(p[j].date), day(p[i].date));
    }
  }

  /** An ordered rearrangement passes through the worst exposure. */
  lemma OrderedReachesRequired(s: seq<Event>, events: seq<Event>)
    requires NonNegative(events) && Ordered(s, SortKey) && multiset(s) == multiset(events)
    ensures Required(events) <= Peak(s)
  {
    hide Required, Exposure, Ordered;
    PeakIsWorstExposure(events);
    PeakBoundsPrefixes(s, 0);
    if Required(events) > 0.0 {
      var e :| e in events && Exposure(events, e.date) == Required(events);
      ExposureIgnoresOrder(events, s, e.date);
      ExposureIsReached(s, e.date);
    }
  }

  /** The figure by the day is the highest that any order within the days runs. */
  lemma DayRequiredIsTheWorstDayOrder(day: Reading, events: seq<Event>)
    requires NonNegative(events)
    ensures forall p :: DayOrder(day, p, events) ==> Peak(p) <= DayRequired(day, events)
    ensures exists p :: DayOrder(day, p, events) && Peak(p) == DayRequired(day, events)
  {
    hide Required, Redated, Peak, Ordered;
    var redated := Redated(day, events);
    forall p: seq<Event> | DayOrder(day, p, events) ensures Peak(p) <= DayRequired(day, events) {
      DayOrderIsCovered(day, p, events);
    }
    var s := PessimisticDayOrder(day, events);
    RedatingKeepsElements(day, s, events);
    RedatingKeepsTotals(day, s);
    RedatingKeepsSigns(day, events);
    OrderedReachesRequired(Redated(day, s), redated);
  }

  lemma RedatingKeepsSigns(day: Reading, events: seq<Event>)
    ensures NonNegative(Redated(day, events)) <==> NonNegative(events)
  {
    hide Midnight;
    assert forall i :: 0 <= i < |events| ==> Redated(day, events)[i].amount == events[i].amount;
  }

  lemma DayOrderIsCovered(day: Reading, p: seq<Event>, events: seq<Event>)
    requires NonNegative(events) && DayOrder(day, p, events)
    ensures Peak(p) <= DayRequired(day, events)
  {
    hide Required, Peak, Midnight;
    var r := Redated(day, p);
    forall i, j | 0 <= i < j < |r| ensures r[i].date <= r[j].date {
      MidnightsAscend(day(p[i].date), day(p[j].date));
    }
    RedatingKeepsElements(day, p, events);
    RedatingKeepsTotals(day, p);
    RedatingKeepsSigns(day, events);
    PeakBoundsEveryClearingOrder(Redated(day, events), r);
  }

  /** The least safe opening balance, when any order within a day is possible. */
  lemma LeastSafeOpeningByTheDay(day: Reading, events: seq<Event>, opening: real, floor: real)
    requires NonNegative(events)
    ensures (forall p :: DayOrder(day, p, events) ==> StaysAtLeast(floor, opening, p)) <==>
            opening >= floor + DayRequired(day, events)
  {
    hide DayRequired, DayOrder;
    DayRequiredIsTheWorstDayOrder(day, events);
    forall p ensures StaysAtLeast(floor, opening, p) <==> opening >= floor + Peak(p) {
      StaysAtLeastIsByThePeak(floor, opening, p);
    }
  }

  lemma StaysAtLeastIsByThePeak(floor: real, opening: real, p: seq<Event>)
    ensures StaysAtLeast(floor, opening, p) <==> opening >= floor + Peak(p)
  {
    hide Peak, Total;
    if opening >= floor + Peak(p) {
      forall n | 0 <= n <= |p| ensures opening - Total(p[..n]) >= floor {
        PeakBoundsPrefixes(p, n);
      }
    } else {
      var n := PeakIsReached(p);
    }
  }

  /** The figure of the instants covers every day order exactly when it is not below the figure by the day. */
  lemma CoveredExactlyByTheDayFigure(day: Reading, events: seq<Event>)
    requires NonNegative(events)
    ensures CoversEveryDayOrder(day, events) <==> DayRequired(day, events) <= Required(events)
  {
    hide DayRequired, DayOrder, Required;
    DayRequiredIsTheWorstDayOrder(day, events);
  }

  // ------------------------------------------------- when the two agree

  /** An outflow that its day puts no later than an inflow, and its instant behind it. */
  predicate Misplaced(day: Reading, outflow: Event, inflow: Event) {
    && outflow.direction.EventOut? && inflow.direction.EventIn?
    && day(outflow.date) <= day(inflow.date) && inflow.date < outflow.date
  }

  ghost predicate WellPlaced(day: Reading, events: seq<Event>) {
    forall a, b :: a in events && b in events ==> !Misplaced(day, a, b)
  }

  ghost predicate InflowsAtMidnight(events: seq<Event>) {
    forall e :: e in events && e.direction.EventIn? ==> exists o: Date :: e.date == Midnight(o)
  }

  /** With no outflow misplaced, every order within the days is covered. */
  lemma WellPlacedIsCovered(day: Reading, events: seq<Event>)
    requires NonNegative(events) && WellPlaced(day, events)
    ensures CoversEveryDayOrder(day, events)
  {
    hide Required, Peak;
    forall p: seq<Event> | DayOrder(day, p, events) ensures Peak(p) <= Required(events) {
      forall i, j | 0 <= i < j < |p| && p[i].direction.EventOut? && p[j].direction.EventIn?
        ensures p[i].date <= p[j].date
      {
        assert p[i] in multiset(events) && p[j] in multiset(events);
        assert !Misplaced(day, p[i], p[j]);
      }
      PeakBoundsEveryClearingOrder(events, p);
    }
  }

  /** By the day never less is required: orders by the instant are among the orders by the day. */
  lemma DayFigureIsNoLower(day: Reading, events: seq<Event>)
    requires IsReading(day) && NonNegative(events) && InflowsAtMidnight(events)
    ensures Required(events) <= DayRequired(day, events)
  {
    hide Required, Peak, Midnight, Sorted;
    var s := Sorted(events, SortKey);
    SortedIsOrdered(events, SortKey);
    OrderedKeepsOutflowsBehind(s);
    var r := Redated(day, s);
    forall i, j | 0 <= i < j < |r| && r[i].direction.EventOut? && r[j].direction.EventIn?
      ensures r[i].date <= r[j].date
    {
      assert s[j] in multiset(events);
      var o: Date :| s[j].date == Midnight(o);
      MidnightsAscend(day(s[i].date), day(s[j].date));
    }
    RedatingKeepsElements(day, s, events);
    RedatingKeepsTotals(day, s);
    RedatingKeepsSigns(day, events);
    PeakBoundsEveryClearingOrder(Redated(day, events), r);
    RequiredIsThePeakOfTheSort(events);
  }

  lemma RequiredIsThePeakOfTheSort(events: seq<Event>)
    ensures Required(events) == Peak(Sorted(events, SortKey))
  {
  }

  /** Then the instants and the days require the same. */
  lemma WellPlacedFiguresAgree(day: Reading, events: seq<Event>)
    requires IsReading(day) && NonNegative(events) && InflowsAtMidnight(events) && WellPlaced(day, events)
    ensures DayRequired(day, events) == Required(events)
  {
    hide Required, DayRequired, InflowsAtMidnight, WellPlaced, IsReading;
    WellPlacedIsCovered(day, events);
    CoveredExactlyByTheDayFigure(day, events);
    DayFigureIsNoLower(day, events);
  }

  // ---------------------------------------- where an outflow is misplaced

  ghost predicate AreInflows(events: seq<Event>) {
    NonNegative(events) && forall e :: e in events ==> e.direction.EventIn?
  }

  /** Inflows weigh less and less, and one dated between two instants makes its own difference. */
  lemma {:induction false} InflowsOffsetMoreAndMore(inflows: seq<Event>, inflow: Event, s: Instant, t: Instant)
    requires AreInflows(inflows) && s <= t
    ensures Exposure(inflows, t) <= Exposure(inflows, s) <= 0.0
    ensures inflow in inflows && s <= inflow.date < t ==>
              Exposure(inflows, t) <= Exposure(inflows, s) - inflow.amount
  {
    if inflows != [] {
      var n := |inflows| - 1;
      assert inflows[n] in inflows && inflows == inflows[..n] + [inflows[n]];
      InflowsOffsetMoreAndMore(inflows[..n], inflow, s, t);
    }
  }

  /** Midnights stay where they are. */
  lemma RedatingKeepsMidnights(day: Reading, events: seq<Event>)
    requires IsReading(day) && forall e :: e in events ==> exists o: Date :: e.date == Midnight(o)
    ensures Redated(day, events) == events
  {
    hide Midnight;
    forall i | 0 <= i < |events| ensures Redated(day, events)[i] == events[i] {
      assert events[i] in events;
      var o: Date :| events[i].date == Midnight(o);
    }
  }

  /**
   An outflow misplaced behind an inflow, and offset in full by the inflows up to its own date: the
   instants require nothing for it, and the days require at least the inflow's amount.
   */
  lemma MisplacedOutflowIsNotCovered(day: Reading, outflow: Event, inflows: seq<Event>, inflow: Event)
    requires IsReading(day) && AreInflows(inflows) && InflowsAtMidnight(inflows) && inflow in inflows
    requires Misplaced(day, outflow, inflow) && outflow.amount == -Exposure(inflows, outflow.date)
    ensures Required([outflow] + inflows) == 0.0
    ensures DayRequired(day, [outflow] + inflows) >= inflow.amount
    ensures Exposure(inflows, inflow.date) == 0.0 ==> DayRequired(day, [outflow] + inflows) == outflow.amount
  {
    hide Required, Exposure, Midnight;
    var events, t := [outflow] + inflows, outflow.date;
    InflowsOffsetMoreAndMore(inflows, inflow, t, t);
    assert NonNegative(events);
    PeakIsWorstExposure(events);
    forall e | e in events ensures Exposure(events, e.date) <= 0.0 {
      ExposureOfConcat([outflow], inflows, e.date);
      ExposureOfOne(outflow, e.date);
      InflowsOffsetMoreAndMore(inflows, inflow, t, if e.date < t then t else e.date);
      InflowsOffsetMoreAndMore(inflows, inflow, e.date, e.date);
    }
    MisplacedOutflowByTheDay(day, outflow, inflows, inflow);
  }

  lemma RedatingTheFirst(day: Reading, first: Event, rest: seq<Event>)
    ensures Redated(day, [first] + rest) == [first.(date := Midnight(day(first.date)))] + Redated(day, rest)
  {
    hide Midnight;
  }

  lemma MisplacedOutflowByTheDay(day: Reading, outflow: Event, inflows: seq<Event>, inflow: Event)
    requires IsReading(day) && AreInflows(inflows) && InflowsAtMidnight(inflows) && inflow in inflows
    requires Misplaced(day, outflow, inflow) && outflow.amount == -Exposure(inflows, outflow.date)
             && outflow.amount >= 0.0
    ensures DayRequired(day, [outflow] + inflows) >= inflow.amount
    ensures Exposure(inflows, inflow.date) == 0.0 ==> DayRequired(day, [outflow] + inflows) == outflow.amount
  {
    hide Required, Exposure, Midnight, Redated;
    var o: Date :| inflow.date == Midnight(o);
    var early := outflow.(date := Midnight(day(outflow.date)));
    RedatingKeepsMidnights(day, inflows);
    var redated := [early] + inflows;
    RedatingTheFirst(day, outflow, inflows);
    assert NonNegative(redated);
    MidnightsAscend(day(outflow.date), o);
    PeakIsWorstExposure(redated);
    ExposureOfConcat([early], inflows, inflow.date);
    ExposureOfOne(early, inflow.date);
    InflowsOffsetMoreAndMore(inflows, inflow, inflow.date, outflow.date);
    assert Exposure(redated, inflow.date) == outflow.amount + Exposure(inflows, inflow.date);
    forall e | e in redated ensures Exposure(redated, e.date) <= outflow.amount {
      ExposureOfConcat([early], inflows, e.date);
      ExposureOfOne(early, e.date);
      InflowsOffsetMoreAndMore(inflows, inflow, e.date, e.date);
    }
  }

  // ------------------------------------------------------------- readings

  /** The day an instant falls on in the program's own zone. */
  function LocalDay(): Reading {
    (t: Instant) => DayOf(t)
  }

  /**
   The day meant by an instant when a bank's dates are midnights of another zone, which fall at
   offset past the program's own midnight: UTC's fall later in the day in a zone ahead of it, and on
   the evening before in a zone behind it. The program's own midnights keep their date.
   */
  function BankDay(offset: int): Reading {
    (t: Instant) => if TimeOfDay(t) == 0 then DayOf(t) else DayOf(t - offset)
  }

  const DAY := 86400000000000

  lemma LocalDayIsAReading()
    ensures IsReading(LocalDay())
  {
  }

  lemma BankDayIsAReading(offset: int)
    requires -DAY < offset < DAY
    ensures IsReading(BankDay(offset))
  {
    hide BankDay, Midnight;
    var day := BankDay(offset);
    forall o: Date ensures day(Midnight(o)) == o {
      BankDayOfMidnight(offset, o);
    }
    forall t, o: Date | t <= Midnight(o) ensures day(t) <= o {
      BankDayBound(offset, t, o);
    }
  }

  lemma BankDayOfMidnight(offset: int, o: Date)
    ensures BankDay(offset)(Midnight(o)) == o
  {
  }

  lemma BankDayBound(offset: int, t: Instant, o: Date)
    requires -DAY < offset < DAY && t <= Midnight(o)
    ensures BankDay(offset)(t) <= o
  {
    if TimeOfDay(t) != 0 {
      assert t - offset < DAY * (o + 1);
    }
  }
}
