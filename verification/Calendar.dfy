/**
 The proleptic Gregorian calendar that Go's `time` package follows, and the month
 arithmetic of src/internal/core/timex/timex.go on top of it.

 A *date* is a day number: day 0 is 1 January of year 0. A *month* is one integer,
 12 * year + (month number - 1), so stepping the 1st of a month by n months is
 adding n. An *instant* is a number of nanoseconds since midnight of day 0, in one
 zone whose offset does not change.
 */
module Calendar {
  import opened Common

  type Date = int
  type Month = int
  type Instant = int

  // ---------------------------------------------------------------- years

  predicate IsLeap(year: int) {
    year % 4 == 0 && (year % 100 != 0 || year % 400 == 0)
  }

  function DaysBeforeYear(year: int): Date {
    365 * year + (year + 3) / 4 - (year + 99) / 100 + (year + 399) / 400
  }

  lemma YearLength(year: int)
    ensures DaysBeforeYear(year + 1) == DaysBeforeYear(year) + (if IsLeap(year) then 366 else 365)
  {
    StepOfDivision(year, 4);
    StepOfDivision(year, 100);
    StepOfDivision(year, 400);
    MultiplesOfFour(year);
  }

  /** A rounded-up quotient steps behind each multiple. */
  lemma StepOfDivision(n: int, d: int)
    requires d in {4, 100, 400}
    ensures (n + d) / d - (n + d - 1) / d == if n % d == 0 then 1 else 0
  {
  }

  lemma MultiplesOfFour(n: int)
    ensures n % 400 == 0 ==> n % 100 == 0
    ensures n % 100 == 0 ==> n % 4 == 0
  {
  }

  function YearOf(day: Date): (year: int)
    ensures DaysBeforeYear(year) <= day < DaysBeforeYear(year + 1)
  {
    hide DaysBeforeYear, IsLeap;
    var guess := 400 * day / 146097;
    YearLength(guess - 1);
    YearLength(guess);
    YearLength(guess + 1);
    GuessIsClose(day);
    if day < DaysBeforeYear(guess) then guess - 1
    else if day < DaysBeforeYear(guess + 1) then guess
    else guess + 1
  }

  lemma GuessIsClose(day: Date)
    ensures var guess := 400 * day / 146097;
            DaysBeforeYear(guess - 1) <= day < DaysBeforeYear(guess + 2)
  {
    var guess := 400 * day / 146097;
    assert 146097 * guess <= 400 * day < 146097 * guess + 146097;
    YearBounds(guess - 1);
    YearBounds(guess + 2);
  }

  /** The leap rule drifts by less than three days from the mean year of 146097 / 400 days. */
  lemma YearBounds(year: int)
    ensures 146097 * year - 1200 < 400 * DaysBeforeYear(year) < 146097 * year + 1200
  {
    var q, r := year / 400, year % 400;
    assert year == 400 * q + r;
    assert (year + 3) / 4 == 100 * q + (r + 3) / 4;
    assert (year + 99) / 100 == 4 * q + (r + 99) / 100;
    assert (year + 399) / 400 == q + (r + 399) / 400;
  }

  // --------------------------------------------------------------- months

  /** Days of a common or leap year before its month m (0 is January, 12 the next year). */
  function DaysBeforeMonth(m: int, leap: bool): int
    requires 0 <= m <= 12
  {
    var extra := if leap then 1 else 0;
    if m == 0 then 0
    else if m == 1 then 31
    else if m == 2 then 59 + extra
    else if m == 3 then 90 + extra
    else if m == 4 then 120 + extra
    else if m == 5 then 151 + extra
    else if m == 6 then 181 + extra
    else if m == 7 then 212 + extra
    else if m == 8 then 243 + extra
    else if m == 9 then 273 + extra
    else if m == 10 then 304 + extra
    else if m == 11 then 334 + extra
    else 365 + extra
  }

  function MonthStart(month: Month): Date {
    DaysBeforeYear(month / 12) + DaysBeforeMonth(month % 12, IsLeap(month / 12))
  }

  /** The lengths everyone knows: thirty days hath September. */
  function GregorianLength(year: int, monthNumber: int): int
    requires 1 <= monthNumber <= 12
  {
    if monthNumber == 2 then (if IsLeap(year) then 29 else 28)
    else if monthNumber in {4, 6, 9, 11} then 30
    else 31
  }

  function MonthLength(month: Month): int {
    GregorianLength(month / 12, month % 12 + 1)
  }

  /** DaysInMonth: the day before the 1st of the following month. */
  function DaysInMonth(month: Month): (days: int)
    ensures 28 <= days <= 31
  {
    LengthIsGregorian(month);
    MonthStart(month + 1) - MonthStart(month)
  }

  lemma LengthIsGregorian(month: Month)
    ensures MonthStart(month + 1) - MonthStart(month) == MonthLength(month)
  {
    YearLength(month / 12);
    assert month % 12 == 11 ==> (month + 1) / 12 == month / 12 + 1 && (month + 1) % 12 == 0;
    assert month % 12 != 11 ==> (month + 1) / 12 == month / 12 && (month + 1) % 12 == month % 12 + 1;
  }

  /** The month of a year that holds its n-th day, counting both from 0. */
  function MonthWithin(n: int, leap: bool): (m: int)
    requires 0 <= n < DaysBeforeMonth(12, leap)
    ensures 0 <= m < 12 && DaysBeforeMonth(m, leap) <= n < DaysBeforeMonth(m + 1, leap)
  {
    if n < DaysBeforeMonth(1, leap) then 0
    else if n < DaysBeforeMonth(2, leap) then 1
    else if n < DaysBeforeMonth(3, leap) then 2
    else if n < DaysBeforeMonth(4, leap) then 3
    else if n < DaysBeforeMonth(5, leap) then 4
    else if n < DaysBeforeMonth(6, leap) then 5
    else if n < DaysBeforeMonth(7, leap) then 6
    else if n < DaysBeforeMonth(8, leap) then 7
    else if n < DaysBeforeMonth(9, leap) then 8
    else if n < DaysBeforeMonth(10, leap) then 9
    else if n < DaysBeforeMonth(11, leap) then 10
    else 11
  }

  lemma MonthStartWithin(year: int, m: int)
    requires 0 <= m <= 12
    ensures MonthStart(12 * year + m) == DaysBeforeYear(year) + DaysBeforeMonth(m, IsLeap(year))
  {
    hide DaysBeforeYear;
    if m == 12 {
      YearLength(year);
      assert (12 * year + m) / 12 == year + 1;
    } else {
      assert (12 * year + m) / 12 == year;
    }
  }

  function MonthOf(day: Date): (month: Month)
    ensures MonthStart(month) <= day < MonthStart(month + 1)
  {
    hide MonthStart, IsLeap, DaysBeforeYear;
    var year := YearOf(day);
    YearLength(year);
    var m := MonthWithin(day - DaysBeforeYear(year), IsLeap(year));
    MonthStartWithin(year, m);
    MonthStartWithin(year, m + 1);
    12 * year + m
  }

  function DayOfMonth(day: Date): (d: int)
    ensures 1 <= d <= DaysInMonth(MonthOf(day))
  {
    day - MonthStart(MonthOf(day)) + 1
  }

  /** The date that is day d of a month. */
  function OnDay(month: Month, d: int): Date {
    MonthStart(month) + d - 1
  }

  lemma {:induction false} MonthStartGap(a: Month, b: Month)
    requires a <= b
    ensures MonthStart(a) + 28 * (b - a) <= MonthStart(b) <= MonthStart(a) + 31 * (b - a)
    decreases b - a
  {
    hide MonthStart;
    if a < b {
      MonthStartGap(a, b - 1);
      var _ := DaysInMonth(b - 1);
    }
  }

  /** A date has one month: whatever month's span holds it is its month. */
  lemma MonthIsUnique(day: Date, month: Month)
    requires MonthStart(month) <= day < MonthStart(month + 1)
    ensures MonthOf(day) == month
  {
    hide MonthStart, MonthOf;
    var own := MonthOf(day);
    if own < month {
      MonthStartGap(own + 1, month);
    } else if month < own {
      MonthStartGap(month + 1, own);
    }
  }

  /** (month, day of month) and day number determine each other. */
  lemma CivilRoundTrip(day: Date, month: Month, d: int)
    requires 1 <= d <= DaysInMonth(month)
    ensures OnDay(MonthOf(day), DayOfMonth(day)) == day
    ensures MonthOf(OnDay(month, d)) == month && DayOfMonth(OnDay(month, d)) == d
  {
    hide MonthStart, MonthOf;
    MonthIsUnique(OnDay(month, d), month);
  }

  /** The Gregorian successor rule, stated on (month, day of month) alone. */
  lemma NextDayIsGregorian(day: Date)
    ensures var (month, d) := (MonthOf(day), DayOfMonth(day));
            if d < MonthLength(month)
            then MonthOf(day + 1) == month && DayOfMonth(day + 1) == d + 1
            else MonthOf(day + 1) == month + 1 && DayOfMonth(day + 1) == 1
  {
    hide MonthStart, MonthLength, MonthOf, DaysBeforeYear, IsLeap;
    var month := MonthOf(day);
    LengthIsGregorian(month);
    if day + 1 < MonthStart(month + 1) {
      MonthIsUnique(day + 1, month);
    } else {
      var _ := DaysInMonth(month + 1);
      MonthIsUnique(day + 1, month + 1);
    }
  }

  // -------------------------------------------------------- timex helpers

  /** AddMonthsClamped on a calendar date: the day of month is kept, or cut to the month's last. */
  function AddMonthsClampedDate(day: Date, n: int): Date {
    var target := MonthOf(day) + n;
    OnDay(target, Min(DayOfMonth(day), DaysInMonth(target)))
  }

  /** The shifted date lies n months on, keeps its day when it can, and never overflows. */
  lemma AddMonthsClampedLands(day: Date, n: int)
    ensures var shifted := AddMonthsClampedDate(day, n);
            && MonthOf(shifted) == MonthOf(day) + n
            && DayOfMonth(shifted) <= DayOfMonth(day)
            && (DayOfMonth(shifted) < DayOfMonth(day) ==>
                  DayOfMonth(shifted) == DaysInMonth(MonthOf(day) + n))
  {
    hide MonthStart, MonthOf, DayOfMonth, DaysInMonth, OnDay;
    var target := MonthOf(day) + n;
    CivilRoundTrip(day, target, Min(DayOfMonth(day), DaysInMonth(target)));
  }

  lemma MonthsAreOrdered(a: Date, b: Date)
    requires a <= b
    ensures MonthOf(a) <= MonthOf(b)
  {
    hide MonthStart, MonthOf;
    if MonthOf(b) < MonthOf(a) {
      MonthStartGap(MonthOf(b) + 1, MonthOf(a));
    }
  }

  /** A clamped month is 28 to 31 days long, forwards and backwards. */
  lemma OneMonthSpan(day: Date)
    ensures 28 <= AddMonthsClampedDate(day, 1) - day <= 31
    ensures 28 <= day - AddMonthsClampedDate(day, -1) <= 31
  {
    hide MonthStart, MonthOf;
    var month := MonthOf(day);
    var _ := DaysInMonth(month - 1);
    var _ := DaysInMonth(month);
    var _ := DaysInMonth(month + 1);
  }

  /** MonthRange: the half-open span of dates [start, end) bounding a month. */
  function MonthRange(month: Month): (Date, Date) {
    (MonthStart(month), MonthStart(month + 1))
  }

  lemma MonthRangeIsTheMonth(month: Month, day: Date)
    ensures MonthRange(month).0 <= day < MonthRange(month).1 <==> MonthOf(day) == month
  {
    hide MonthStart, MonthOf;
    if MonthRange(month).0 <= day < MonthRange(month).1 {
      MonthIsUnique(day, month);
    }
  }

  /** DaysLeftInclusive, with the clamp the source writes. */
  function DaysLeftInclusive(today: Date): int {
    var lastDay := MonthStart(MonthOf(today) + 1) - 1;
    var days := lastDay - today + 1;
    if days < 1 then 1 else days
  }

  /** The clamp never fires: the days left are today's place counted from the month's end. */
  lemma DaysLeftCountsDown(today: Date)
    ensures DaysLeftInclusive(today) == DaysInMonth(MonthOf(today)) - DayOfMonth(today) + 1
    ensures DaysLeftInclusive(today) == 1 <==> MonthOf(today + 1) != MonthOf(today)
  {
    hide MonthStart, MonthLength, MonthOf;
    LengthIsGregorian(MonthOf(today));
    NextDayIsGregorian(today);
  }

  // ------------------------------------------------------------- instants

  function Midnight(day: Date): Instant {
    day * 86400000000000
  }

  function DayOf(t: Instant): Date {
    t / 86400000000000
  }

  function TimeOfDay(t: Instant): int {
    t % 86400000000000
  }

  function StartOfDay(t: Instant): Instant {
    Midnight(DayOf(t))
  }

  /** The first date whose midnight is not before t. */
  function CeilDay(t: Instant): Date {
    if TimeOfDay(t) == 0 then DayOf(t) else DayOf(t) + 1
  }

  function AddDays(t: Instant, n: int): Instant {
    t + Midnight(n)
  }

  function AddMonthsClamped(t: Instant, n: int): Instant {
    Midnight(AddMonthsClampedDate(DayOf(t), n)) + TimeOfDay(t)
  }

  lemma MidnightOrder(day: Date, t: Instant)
    ensures DayOf(Midnight(day)) == day && TimeOfDay(Midnight(day)) == 0
    ensures Midnight(day) <= t <==> day <= DayOf(t)
    ensures t <= Midnight(day) <==> CeilDay(t) <= day
    ensures Midnight(day) < t <==> day < CeilDay(t)
    ensures t < Midnight(day) <==> DayOf(t) < day
  {
  }

  lemma MidnightsInOrder(t: Instant)
    ensures forall day: Date {:trigger Midnight(day)} ::
              && (Midnight(day) <= t <==> day <= DayOf(t))
              && (t <= Midnight(day) <==> CeilDay(t) <= day)
    ensures DayOf(t) <= CeilDay(t) <= DayOf(t) + 1
  {
  }

  lemma AddDaysInstant(t: Instant, n: int)
    ensures DayOf(AddDays(t, n)) == DayOf(t) + n
    ensures TimeOfDay(AddDays(t, n)) == TimeOfDay(t)
  {
  }

  lemma AddMonthsClampedInstant(t: Instant, n: int)
    ensures DayOf(AddMonthsClamped(t, n)) == AddMonthsClampedDate(DayOf(t), n)
    ensures TimeOfDay(AddMonthsClamped(t, n)) == TimeOfDay(t)
  {
  }
}
