/**
 The windows over which occurrences are projected: the sweep's one-month horizon
 (src/internal/sweep/sweep.go), the one-cadence lookback, and the bracket in which a
 transaction that creates an item finds its occurrence (src/internal/schedule/schedule.go).
 */
module Windows {
  import opened Common
  import opened Calendar
  import opened Schedule

  /** OneCadenceBefore: a clamped month back, or fourteen days. */
  function OneCadenceBefore(item: Item, t: Instant): Instant {
    if item.cadence.Biweekly? then AddDays(t, -14) else AddMonthsClamped(t, -1)
  }

  /** horizonFrom: one clamped month on, at the run's own time of day. */
  function HorizonFrom(now: Instant): Instant {
    AddMonthsClamped(now, 1)
  }

  /** The horizon is the same time of day, on the date one clamped month on. */
  lemma HorizonIsAMonthOn(now: Instant)
    ensures DayOf(HorizonFrom(now)) == AddMonthsClampedDate(DayOf(now), 1)
    ensures TimeOfDay(HorizonFrom(now)) == TimeOfDay(now)
  {
    hide AddMonthsClampedDate;
    AddMonthsClampedInstant(now, 1);
  }

  /** occurrenceWindow: today's midnight, and the midnight of the day before the horizon's date. */
  function OccurrenceWindow(now: Instant, horizon: Instant): (Instant, Instant) {
    (StartOfDay(now), AddDays(StartOfDay(horizon), -1))
  }

  /** The dates the run's window spans: today through the day before the horizon's date. */
  lemma WindowDates(now: Instant)
    ensures var w := OccurrenceWindow(now, HorizonFrom(now));
            && CeilDay(w.0) == DayOf(w.0) == DayOf(now)
            && DayOf(w.1) == AddMonthsClampedDate(DayOf(now), 1) - 1
  {
    hide AddMonthsClampedDate;
    AddMonthsClampedInstant(now, 1);
  }

  /** The dates the lookback spans: it starts one clamped month, or fourteen days, before today. */
  lemma LookbackDates(item: Item, now: Instant)
    ensures var from := OneCadenceBefore(item, StartOfDay(now));
            && CeilDay(from) == DayOf(from)
            && DayOf(from) == (if item.cadence.Biweekly? then DayOf(now) - 14
                               else AddMonthsClampedDate(DayOf(now), -1))
  {
    hide AddMonthsClampedDate;
    AddMonthsClampedInstant(StartOfDay(now), -1);
  }

  /** The day of month an item asks for: a dateless one stands on the 1st. */
  function DeclaredDay(item: Item): (k: int)
    ensures k >= 1
  {
    if item.dayOfMonth < 1 then 1 else item.dayOfMonth
  }

  lemma DeclaredDayPlaces(item: Item, month: Month)
    ensures MonthlyOccurrenceIn(item, month) == MonthStart(month) + Min(DeclaredDay(item), DaysInMonth(month)) - 1
  {
    hide MonthStart;
  }

  lemma MonthParts(month: Month)
    ensures MonthStart(month + 1) == MonthStart(month) + DaysInMonth(month)
  {
  }

  /** Where a date stands in its month, and where its clamped shift by n months lands. */
  lemma DateParts(day: Date, n: int)
    ensures day == MonthStart(MonthOf(day)) + DayOfMonth(day) - 1
    ensures AddMonthsClampedDate(day, n) ==
            MonthStart(MonthOf(day) + n) + Min(DayOfMonth(day), DaysInMonth(MonthOf(day) + n)) - 1
  {
    hide MonthStart;
  }

  // --------------------------------------------------- how many they hold

  /**
   The forward window holds one occurrence of a monthly item, except that it holds
   none when the next month is too short for the item's day and the run is made on a
   later day than the item's. It never holds two.
   */
  lemma ForwardWindowCount(item: Item, now: Instant)
    requires item.cadence.Monthly?
    ensures var w := OccurrenceWindow(now, HorizonFrom(now));
            var nextLength := DaysInMonth(MonthOf(DayOf(now)) + 1);
            |Between(item, CeilDay(w.0), DayOf(w.1))| ==
            if nextLength <= DeclaredDay(item) < DayOfMonth(DayOf(now)) then 0 else 1
  {
    hide *;
    WindowDates(now);
    var today := DayOf(now);
    var month := MonthOf(today);
    var end := AddMonthsClampedDate(today, 1) - 1;
    DateParts(today, 1);
    MonthParts(month);
    MonthParts(month + 1);
    DeclaredDayPlaces(item, month);
    DeclaredDayPlaces(item, month + 1);
    BetweenEmpty(item, today, MonthStart(month) - 1);
    BetweenOverMonth(item, today, month, MonthStart(month + 1) - 1);
    BetweenOverMonth(item, today, month + 1, end);
  }

  /**
   The lookback [OneCadenceBefore(today), today) holds one occurrence of a monthly item,
   except that it holds two when the month before is too short for the item's day and
   today is a later day than the item's. It is never empty.
   */
  lemma LookbackCount(item: Item, now: Instant)
    requires item.cadence.Monthly?
    ensures var from := OneCadenceBefore(item, StartOfDay(now));
            var lastLength := DaysInMonth(MonthOf(DayOf(now)) - 1);
            |Between(item, CeilDay(from), DayOf(now) - 1)| ==
            if lastLength <= DeclaredDay(item) < DayOfMonth(DayOf(now)) then 2 else 1
  {
    hide *;
    LookbackDates(item, now);
    var today := DayOf(now);
    var month := MonthOf(today);
    var from := AddMonthsClampedDate(today, -1);
    DateParts(today, -1);
    MonthParts(month - 1);
    MonthParts(month);
    DeclaredDayPlaces(item, month - 1);
    DeclaredDayPlaces(item, month);
    BetweenEmpty(item, from, MonthStart(month - 1) - 1);
    BetweenOverMonth(item, from, month - 1, MonthStart(month) - 1);
    BetweenOverMonth(item, from, month, today - 1);
  }

  /** Any fourteen days in a row hold exactly one occurrence of a biweekly item. */
  lemma FortnightCount(item: Item, lo: Date)
    requires item.cadence.Biweekly? && item.anchor.Some?
    ensures |Between(item, lo, lo + 13)| == 1
  {
    hide Between, IsOccurrence;
    var o := lo + (item.anchor.value - lo) % 14;
    assert OnSeries(item, o) && OnSeries(item, o - 14);
    StepSeries(item, o);
    NoneBeforeFirst(item, lo, o, o - 1);
    BetweenExtends(item, lo, o);
    BetweenFortnight(item, lo, o, lo + 13);
  }

  lemma BiweeklyLookbackCount(item: Item, now: Instant)
    requires item.cadence.Biweekly? && item.anchor.Some?
    ensures |Between(item, CeilDay(OneCadenceBefore(item, StartOfDay(now))), DayOf(now) - 1)| == 1
  {
    LookbackDates(item, now);
    FortnightCount(item, DayOf(now) - 14);
  }

  /** The documented "exactly one" fails: a run on 31 January sees no 30th before 28 February 2023. */
  lemma JanuaryRunMissesThe30th(item: Item, now: Instant)
    requires item.cadence.Monthly? && item.dayOfMonth == 30
    requires MonthOf(DayOf(now)) == 12 * 2023 && DayOfMonth(DayOf(now)) == 31
    ensures var w := OccurrenceWindow(now, HorizonFrom(now));
            Between(item, CeilDay(w.0), DayOf(w.1)) == []
  {
    hide MonthStart, Between, DayOf, OccurrenceWindow, HorizonFrom, DayOfMonth, MonthOf;
    ForwardWindowCount(item, now);
    LengthIsGregorian(MonthOf(DayOf(now)) + 1);
  }

  // ------------------------------------------------- how far apart they are

  function MinimumGap(item: Item): int {
    if item.cadence.Biweekly? then 14 else 28
  }

  /** Two occurrences of one item are at least fourteen days apart, 28 for a monthly one. */
  lemma OccurrencesAreSpaced(item: Item, a: Date, b: Date)
    requires IsOccurrence(item, a) && IsOccurrence(item, b) && a < b
    ensures b - a >= MinimumGap(item)
  {
    if item.cadence.Monthly? {
      MonthlyOccurrencesAreSpaced(item, a, b);
    }
  }

  lemma MonthlyOccurrencesAreSpaced(item: Item, a: Date, b: Date)
    requires item.cadence.Monthly? && IsOccurrence(item, a) && IsOccurrence(item, b) && a < b
    ensures b - a >= 28
  {
    hide *;
    var m, n := MonthOf(a), MonthOf(b);
    OccurrenceIsItsMonths(item, a);
    OccurrenceIsItsMonths(item, b);
    MonthParts(m);
    MonthsAreOrdered(a, b);
    assert m < n;
    MonthStartGap(m + 1, n);
  }

  lemma OccurrenceIsItsMonths(item: Item, day: Date)
    requires item.cadence.Monthly?
    ensures var month := MonthOf(day);
            IsOccurrence(item, day) <==>
            day == MonthStart(month) + Min(DeclaredDay(item), DaysInMonth(month)) - 1
  {
    DeclaredDayPlaces(item, MonthOf(day));
    hide MonthStart;
  }

  const MatchDateTolerance := 5

  /** daysApart, between the calendar dates of two instants. */
  function DaysApart(a: Date, b: Date): nat {
    Abs(a - b)
  }

  /** No date is within tolerance of two occurrences, so they never compete for a transaction. */
  lemma ToleranceWindowsAreDisjoint(item: Item, a: Date, b: Date, txnDate: Date)
    requires IsOccurrence(item, a) && IsOccurrence(item, b)
    requires DaysApart(txnDate, a) <= MatchDateTolerance && DaysApart(txnDate, b) <= MatchDateTolerance
    ensures a == b
  {
    hide IsOccurrence;
    if a < b {
      OccurrencesAreSpaced(item, a, b);
    } else if b < a {
      OccurrencesAreSpaced(item, b, a);
    }
  }

  // ---------------------------------------------------------- bootstrapping

  /** bootstrapSearchWindow: one cadence either side of the transaction's instant. */
  function BootstrapSearchWindow(item: Item, t: Instant): (Instant, Instant) {
    if item.cadence.Biweekly? then (AddDays(t, -14), AddDays(t, 14))
    else (AddMonthsClamped(t, -1), AddMonthsClamped(t, 1))
  }

  /** o is the occurrence nearest to day in the whole series, the earlier one on a tie. */
  ghost predicate IsNearest(item: Item, day: Date, o: Date) {
    && IsOccurrence(item, o)
    && forall other: Date :: IsOccurrence(item, other) ==>
         DaysApart(o, day) < DaysApart(other, day) || (DaysApart(o, day) == DaysApart(other, day) && o <= other)
  }

  /** The dates of the bracket. Its own first date drops out when the transaction has a time of day. */
  lemma BracketDates(item: Item, t: Instant)
    ensures var w := BootstrapSearchWindow(item, t);
            var back := if item.cadence.Biweekly? then DayOf(t) - 14 else AddMonthsClampedDate(DayOf(t), -1);
            && back <= CeilDay(w.0) <= back + 1
            && DayOf(w.1) == (if item.cadence.Biweekly? then DayOf(t) + 14
                              else AddMonthsClampedDate(DayOf(t), 1))
  {
    hide AddMonthsClampedDate;
    AddMonthsClampedInstant(t, -1);
    AddMonthsClampedInstant(t, 1);
  }

  /** Every occurrence outside the bracket is farther from the date than one inside it. */
  lemma BracketHoldsTheNearest(item: Item, t: Instant, other: Date) returns (o: Date)
    requires Declared(item) && IsOccurrence(item, other)
    requires var w := BootstrapSearchWindow(item, t); !(CeilDay(w.0) <= other <= DayOf(w.1))
    ensures var w := BootstrapSearchWindow(item, t); CeilDay(w.0) <= o <= DayOf(w.1)
    ensures IsOccurrence(item, o) && DaysApart(o, DayOf(t)) < DaysApart(other, DayOf(t))
  {
    hide BootstrapSearchWindow, CeilDay, DayOf, AddMonthsClampedDate, MonthStart, IsOccurrence;
    BracketDates(item, t);
    if item.cadence.Biweekly? {
      o := NearBiweekly(item, DayOf(t));
    } else {
      o := NearMonthly(item, DayOf(t), other, AddMonthsClampedDate(DayOf(t), -1), AddMonthsClampedDate(DayOf(t), 1));
    }
  }

  lemma NearBiweekly(item: Item, day: Date) returns (o: Date)
    requires item.cadence.Biweekly? && item.anchor.Some?
    ensures IsOccurrence(item, o) && -7 < o - day <= 7
  {
    o := day + (item.anchor.value - day) % 14;
    if o - day > 7 {
      o := o - 14;
    }
  }

  /** For a stored item the bracket is never empty, so the fallback date is never taken. */
  lemma BracketIsNeverEmpty(item: Item, t: Instant)
    requires Declared(item)
    ensures var w := BootstrapSearchWindow(item, t); Between(item, CeilDay(w.0), DayOf(w.1)) != []
  {
    hide *;
    BracketDates(item, t);
    var o: Date;
    if item.cadence.Biweekly? {
      DeclaredMeans(item);
      o := NearBiweekly(item, DayOf(t));
    } else {
      o := MonthlyOccurrenceIn(item, MonthOf(DayOf(t)));
      OccurrencesAround(item, DayOf(t));
      IsAnOccurrence(item, MonthOf(DayOf(t)));
    }
    var w := BootstrapSearchWindow(item, t);
    BetweenIsExact(item, CeilDay(w.0), DayOf(w.1));
    assert o in Between(item, CeilDay(w.0), DayOf(w.1));
  }

  lemma DeclaredMeans(item: Item)
    requires Declared(item)
    ensures item.cadence.Biweekly? ==> item.anchor.Some?
  {
  }

  /**
   occurrenceForBootstrap: the month's own 1st for a dateless item, else the occurrence
   nearest to the transaction's date over the whole series.
   */
  method OccurrenceForBootstrap(item: Item, txnDate: Instant) returns (best: Date)
    ensures item.cadence.Monthly? && item.dayOfMonth < 1 ==> best == MonthStart(MonthOf(DayOf(txnDate)))
    ensures Declared(item) && !(item.cadence.Monthly? && item.dayOfMonth < 1) ==>
              IsNearest(item, DayOf(txnDate), best)
    ensures item.cadence.Biweekly? && item.anchor.None? ==> best == DayOf(txnDate)
  {
    hide MonthStart, IsOccurrence, Between, DayOf, CeilDay, BootstrapSearchWindow, IsNearest, DaysApart;
    if item.cadence.Monthly? && item.dayOfMonth < 1 {
      return MonthlyOccurrenceIn(item, MonthOf(DayOf(txnDate)));
    }
    var w := BootstrapSearchWindow(item, txnDate);
    var occurrences := Occurrences(item, w.0, w.1);
    BetweenIsExact(item, CeilDay(w.0), DayOf(w.1));
    best := 0;
    var bestDist := -1;
    for i := 0 to |occurrences|
      invariant bestDist == -1 <==> i == 0
      invariant i > 0 ==> best in occurrences[..i] && bestDist == DaysApart(best, DayOf(txnDate))
      invariant forall j :: 0 <= j < i ==>
                  bestDist < DaysApart(occurrences[j], DayOf(txnDate)) ||
                  (bestDist == DaysApart(occurrences[j], DayOf(txnDate)) && best <= occurrences[j])
    {
      var d := DaysApart(occurrences[i], DayOf(txnDate));
      if bestDist == -1 || d < bestDist {
        best, bestDist := occurrences[i], d;
      }
    }
    if bestDist == -1 {
      best := DayOf(txnDate);
    }
    if item.cadence.Biweekly? && item.anchor.None? {
      NoAnchorNoOccurrence(item, CeilDay(w.0), DayOf(w.1));
    }
    if Declared(item) {
      BracketIsNeverEmpty(item, txnDate);
      NearestInBracketIsNearest(item, txnDate, best);
    }
  }

  lemma NearestInBracketIsNearest(item: Item, t: Instant, best: Date)
    requires Declared(item)
    requires var w := BootstrapSearchWindow(item, t);
             var s := Between(item, CeilDay(w.0), DayOf(w.1));
             && best in s
             && forall o :: o in s ==> DaysApart(best, DayOf(t)) < DaysApart(o, DayOf(t)) ||
                                       (DaysApart(best, DayOf(t)) == DaysApart(o, DayOf(t)) && best <= o)
    ensures IsNearest(item, DayOf(t), best)
  {
    hide MonthStart, IsOccurrence, Between, DayOf, CeilDay, BootstrapSearchWindow, DaysApart, Declared;
    var w := BootstrapSearchWindow(item, t);
    BetweenIsExact(item, CeilDay(w.0), DayOf(w.1));
    forall other: Date | IsOccurrence(item, other)
      ensures DaysApart(best, DayOf(t)) < DaysApart(other, DayOf(t)) ||
              (DaysApart(best, DayOf(t)) == DaysApart(other, DayOf(t)) && best <= other)
    {
      if !(CeilDay(w.0) <= other <= DayOf(w.1)) {
        var o := BracketHoldsTheNearest(item, t, other);
        assert o in Between(item, CeilDay(w.0), DayOf(w.1));
      }
    }
  }

  /** The nearest of the three months' occurrences beats any other occurrence outside (back, ahead]. */
  lemma NearMonthly(item: Item, day: Date, other: Date, back: Date, ahead: Date) returns (o: Date)
    requires item.cadence.Monthly? && IsOccurrence(item, other)
    requires back == AddMonthsClampedDate(day, -1) && ahead == AddMonthsClampedDate(day, 1)
    requires other <= back || ahead < other
    ensures back < o <= ahead && IsOccurrence(item, o)
    ensures DaysApart(o, day) < DaysApart(other, day)
  {
    hide *;
    DaysApartIs(other, day);
    OccurrencesAround(item, day);
    var month := if other <= back then MonthOf(day) - 1 else MonthOf(day) + 1;
    o := MonthlyOccurrenceIn(item, month);
    DaysApartIs(o, day);
    if other <= back {
      LastBefore(item, day, other);
    } else {
      FirstAfter(item, day, other);
    }
    if !(back < o <= ahead) {
      OutsideEndMonths(item, day);
    }
    if !(back < o <= ahead) || o == other {
      DaysApartIs(MonthlyOccurrenceIn(item, MonthOf(day)), day);
      month := MonthOf(day);
      o := MonthlyOccurrenceIn(item, month);
    }
    IsAnOccurrence(item, month);
  }

  lemma DaysApartIs(a: Date, b: Date)
    ensures DaysApart(a, b) == Max(a - b, b - a)
  {
  }

  lemma IsAnOccurrence(item: Item, month: Month)
    requires item.cadence.Monthly?
    ensures IsOccurrence(item, MonthlyOccurrenceIn(item, month))
  {
    hide *;
    MonthParts(month);
    OneInMonth(item, month, MonthStart(month));
    OneInMonth(item, month, MonthlyOccurrenceIn(item, month));
  }

  /** Last month's, this month's and next month's occurrences, in order around the date. */
  lemma OccurrencesAround(item: Item, day: Date)
    requires item.cadence.Monthly?
    ensures MonthlyOccurrenceIn(item, MonthOf(day) - 1) < day < MonthlyOccurrenceIn(item, MonthOf(day) + 1)
    ensures AddMonthsClampedDate(day, -1) < MonthlyOccurrenceIn(item, MonthOf(day)) <= AddMonthsClampedDate(day, 1)
    ensures MonthlyOccurrenceIn(item, MonthOf(day) - 1) <= AddMonthsClampedDate(day, 1)
    ensures AddMonthsClampedDate(day, -1) < MonthlyOccurrenceIn(item, MonthOf(day) + 1)
  {
    hide *;
    var month := MonthOf(day);
    DateParts(day, -1);
    DateParts(day, 1);
    MonthParts(month - 1);
    MonthParts(month);
    DeclaredDayPlaces(item, month - 1);
    DeclaredDayPlaces(item, month);
    DeclaredDayPlaces(item, month + 1);
  }

  lemma LastBefore(item: Item, day: Date, other: Date)
    requires item.cadence.Monthly? && IsOccurrence(item, other)
    requires other <= AddMonthsClampedDate(day, -1)
    ensures other <= MonthlyOccurrenceIn(item, MonthOf(day) - 1)
  {
    hide *;
    var last := MonthOf(day) - 1;
    OccurrenceIsItsMonths(item, other);
    DeclaredDayPlaces(item, last);
    DateParts(day, -1);
    DateParts(other, 0);
    MonthParts(last);
    MonthParts(MonthOf(other));
    if MonthOf(other) < last {
      MonthStartGap(MonthOf(other) + 1, last);
    } else if last < MonthOf(other) {
      MonthStartGap(last + 1, MonthOf(other));
    }
  }

  lemma FirstAfter(item: Item, day: Date, other: Date)
    requires item.cadence.Monthly? && IsOccurrence(item, other)
    requires AddMonthsClampedDate(day, 1) < other
    ensures MonthlyOccurrenceIn(item, MonthOf(day) + 1) <= other
  {
    hide *;
    var next := MonthOf(day) + 1;
    OccurrenceIsItsMonths(item, other);
    DeclaredDayPlaces(item, next);
    DateParts(day, 1);
    DateParts(other, 0);
    MonthParts(next);
    MonthParts(MonthOf(other));
    if MonthOf(other) < next {
      MonthStartGap(MonthOf(other) + 1, next);
    } else if next < MonthOf(other) {
      MonthStartGap(next + 1, MonthOf(other));
    }
  }

  /** An end month's occurrence that misses the bracket is farther from the date than this month's. */
  lemma OutsideEndMonths(item: Item, day: Date)
    requires item.cadence.Monthly?
    ensures var o := MonthlyOccurrenceIn(item, MonthOf(day));
            && (var p := MonthlyOccurrenceIn(item, MonthOf(day) - 1);
                p <= AddMonthsClampedDate(day, -1) ==> Max(o - day, day - o) < day - p)
            && (var q := MonthlyOccurrenceIn(item, MonthOf(day) + 1);
                AddMonthsClampedDate(day, 1) < q ==> Max(o - day, day - o) < q - day)
  {
    hide *;
    var month := MonthOf(day);
    DateParts(day, -1);
    DateParts(day, 1);
    MonthParts(month - 1);
    MonthParts(month);
    DeclaredDayPlaces(item, month - 1);
    DeclaredDayPlaces(item, month);
    DeclaredDayPlaces(item, month + 1);
  }
}
