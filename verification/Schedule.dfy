/**
 The declared schedule: an item, its validation, and the projection of its dated
 occurrences (src/internal/schedule/schedule.go, service.go normalize).

 An occurrence is a calendar date; the source's value for it is that date's midnight.
 */
module Schedule {
  import opened Common
  import opened Calendar
  import opened Text

  datatype Direction = Out | In

  datatype Cadence = Monthly | Biweekly

  /** dayOfMonth 0 is a dateless monthly item; anchor is None for the zero time. */
  datatype Item = Item(id: string, name: string, direction: Direction, amount: Option<real>,
                       cadence: Cadence, dayOfMonth: int, anchor: Option<Date>, active: bool)

  const MaxNameLen := 60

  datatype Problem = BlankName | LongName | NoAmount | NoSuchDay | NoAnchor

  /** What the form says of a refused declaration. */
  function MessageFor(problem: Problem): string {
    match problem
    case BlankName => "Give the scheduled item a name."
    case LongName => "Keep the name to 60 characters or fewer."
    case NoAmount => "Enter an amount greater than zero."
    case NoSuchDay => "Choose a day of the month between 1 and 31, or leave it blank for a bill with no fixed date."
    case NoAnchor => "Give a date the item last fell on, so the every-14-days cadence has an anchor."
  }

  function Normalize(item: Item): Result<Item> {
    var name := TrimSpace(item.name);
    if name == "" then Err(MessageFor(BlankName))
    else if |name| > MaxNameLen then Err(MessageFor(LongName))
    else if item.amount.Some? && item.amount.value <= 0.0 then Err(MessageFor(NoAmount))
    else
      match item.cadence
      case Monthly =>
        if item.dayOfMonth < 0 || item.dayOfMonth > 31 then Err(MessageFor(NoSuchDay))
        else Ok(item.(name := name, anchor := None))
      case Biweekly =>
        if item.anchor.None? then Err(MessageFor(NoAnchor))
        else Ok(item.(name := name, dayOfMonth := 0))
  }

  /** A declaration every later computation may rely on: one date field, and it is usable. */
  predicate Declared(item: Item) {
    && (item.amount.Some? ==> item.amount.value > 0.0)
    && (item.cadence.Monthly? ==> 0 <= item.dayOfMonth <= 31 && item.anchor.None?)
    && (item.cadence.Biweekly? ==> item.anchor.Some? && item.dayOfMonth == 0)
  }

  /** What is stored is declared, stays as it is when validated again, and keeps the money and direction. */
  lemma NormalizeSettles(item: Item)
    ensures Normalize(item).Ok? ==>
              && Declared(Normalize(item).result)
              && Normalize(Normalize(item).result) == Normalize(item)
              && Normalize(item).result.amount == item.amount
              && Normalize(item).result.direction == item.direction
    ensures Declared(item) && 0 < |item.name| <= MaxNameLen && TrimSpace(item.name) == item.name ==>
              Normalize(item) == Ok(item)
  {
    hide TrimSpace, Normalize;
    TrimIsIdempotent(item.name);
    NormalizesExactly(item);
    if Normalize(item).Ok? {
      NormalizesExactly(Normalize(item).result);
    }
  }

  /** The declaration with its name trimmed and the date field of the other cadence cleared. */
  function Cleaned(item: Item): Item {
    if item.cadence.Monthly? then item.(name := TrimSpace(item.name), anchor := None)
    else item.(name := TrimSpace(item.name), dayOfMonth := 0)
  }

  lemma NormalizesExactly(item: Item)
    ensures Normalize(item).Ok? <==> 0 < |TrimSpace(item.name)| <= MaxNameLen && Declared(Cleaned(item))
    ensures Normalize(item).Ok? ==> Normalize(item) == Ok(Cleaned(item))
  {
    hide TrimSpace, MessageFor;
  }

  /** Declared items are keyed by id. */
  ghost predicate DistinctItems(items: seq<Item>) {
    forall i, j :: 0 <= i < j < |items| ==> items[i].id != items[j].id
  }

  // ---------------------------------------------------------- the series

  /** monthlyOccurrenceIn: the declared day cut to the month's length, or the 1st when dateless. */
  function MonthlyOccurrenceIn(item: Item, month: Month): Date {
    if item.dayOfMonth < 1 then MonthStart(month)
    else OnDay(month, Min(item.dayOfMonth, DaysInMonth(month)))
  }

  /** A whole number of fortnights from the anchor. */
  predicate OnSeries(item: Item, day: Date) {
    item.anchor.Some? && (day - item.anchor.value) % 14 == 0
  }

  /** Membership in the item's whole infinite series of occurrences. */
  predicate IsOccurrence(item: Item, day: Date) {
    match item.cadence
    case Monthly => day == MonthlyOccurrenceIn(item, MonthOf(day))
    case Biweekly => OnSeries(item, day)
  }

  /**
   The series by the calendar alone: the declared day of every month, or its last day where the month
   is shorter, or the 1st without one; and every fourteenth day from the anchor in either direction.
   */
  lemma SeriesByTheCalendar(item: Item, day: Date)
    ensures item.cadence.Monthly? ==>
              (IsOccurrence(item, day) <==>
               DayOfMonth(day) == (if item.dayOfMonth < 1 then 1
                                   else if item.dayOfMonth <= DaysInMonth(MonthOf(day)) then item.dayOfMonth
                                   else DaysInMonth(MonthOf(day))))
    ensures item.cadence.Biweekly? ==>
              (IsOccurrence(item, day) <==> item.anchor.Some? && exists k: int :: day == item.anchor.value + 14 * k)
  {
    hide MonthOf, MonthStart, DaysInMonth;
    if item.cadence.Biweekly? && item.anchor.Some? {
      var k := (day - item.anchor.value) / 14;
      assert (day - item.anchor.value) % 14 == 0 ==> day == item.anchor.value + 14 * k;
      forall j: int | day == item.anchor.value + 14 * j ensures (day - item.anchor.value) % 14 == 0 {
        FortnightsAreMultiples(day - item.anchor.value, j);
      }
    }
  }

  lemma FortnightsAreMultiples(n: int, k: int)
    requires n == 14 * k
    ensures n % 14 == 0
  {
  }

  /** The occurrences dated in [lo, hi], ascending. */
  function Between(item: Item, lo: Date, hi: Date): seq<Date>
    decreases hi - lo + 1
  {
    if hi < lo then []
    else Between(item, lo, hi - 1) + (if IsOccurrence(item, hi) then [hi] else [])
  }

  lemma {:induction false} BetweenIsExact(item: Item, lo: Date, hi: Date)
    ensures var s := Between(item, lo, hi);
            && (forall day :: day in s <==> lo <= day <= hi && IsOccurrence(item, day))
            && (forall i, j :: 0 <= i < j < |s| ==> s[i] < s[j])
    decreases hi - lo + 1
  {
    hide IsOccurrence;
    if lo <= hi {
      BetweenIsExact(item, lo, hi - 1);
      var s := Between(item, lo, hi - 1);
      forall i | 0 <= i < |s| ensures s[i] < hi {
        assert s[i] in s;
      }
    }
  }

  lemma {:induction false} BetweenSkips(item: Item, lo: Date, mid: Date, hi: Date)
    requires mid <= hi
    requires forall day :: mid < day <= hi ==> !IsOccurrence(item, day)
    ensures Between(item, lo, hi) == Between(item, lo, mid)
    decreases hi - mid
  {
    hide IsOccurrence;
    if mid < hi {
      BetweenSkips(item, lo, mid, hi - 1);
    }
  }

  lemma OneInMonth(item: Item, month: Month, day: Date)
    requires item.cadence.Monthly? && MonthStart(month) <= day < MonthStart(month + 1)
    ensures IsOccurrence(item, day) <==> day == MonthlyOccurrenceIn(item, month)
    ensures MonthStart(month) <= MonthlyOccurrenceIn(item, month) < MonthStart(month + 1)
  {
    hide MonthStart;
    MonthIsUnique(day, month);
  }

  /** Walking one more month adds that month's single occurrence, if the window holds it. */
  lemma BetweenOverMonth(item: Item, lo: Date, month: Month, hi: Date)
    requires item.cadence.Monthly?
    requires MonthStart(month) - 1 <= hi < MonthStart(month + 1)
    ensures var o := MonthlyOccurrenceIn(item, month);
            Between(item, lo, hi) ==
            Between(item, lo, MonthStart(month) - 1) + (if lo <= o <= hi then [o] else [])
  {
    hide MonthStart, IsOccurrence, MonthlyOccurrenceIn;
    var _ := DaysInMonth(month);
    OneInMonth(item, month, MonthStart(month));
    var o := MonthlyOccurrenceIn(item, month);
    forall day | MonthStart(month) <= day < MonthStart(month + 1)
      ensures IsOccurrence(item, day) <==> day == o
    {
      OneInMonth(item, month, day);
    }
    if hi < o {
      BetweenSkips(item, lo, MonthStart(month) - 1, hi);
    } else {
      BetweenSkips(item, lo, MonthStart(month) - 1, o - 1);
      BetweenSkips(item, lo, o, hi);
      if o < lo {
        assert Between(item, lo, o) == [] == Between(item, lo, MonthStart(month) - 1);
      }
    }
  }

  // ------------------------------------------------------ the projection

  /** monthlyOccurrences: one occurrence for every month the window touches. */
  method MonthlyOccurrences(item: Item, from: Instant, to: Instant) returns (out: seq<Date>)
    requires item.cadence.Monthly? && from <= to
    ensures out == Between(item, CeilDay(from), DayOf(to))
  {
    hide *;
    MidnightsInOrder(from);
    MidnightsInOrder(to);
    ghost var lo, hi := CeilDay(from), DayOf(to);
    out := [];
    var cursor := MonthOf(DayOf(from));
    BetweenEmpty(item, lo, Min(hi, MonthStart(cursor) - 1));
    while Midnight(MonthStart(cursor)) <= to
      invariant out == Between(item, lo, Min(hi, MonthStart(cursor) - 1))
      decreases hi - MonthStart(cursor)
    {
      var occurrence := MonthlyOccurrenceIn(item, cursor);
      MonthIsNotEmpty(cursor);
      BetweenOverMonth(item, lo, cursor, Min(hi, MonthStart(cursor + 1) - 1));
      OneInMonth(item, cursor, MonthStart(cursor));
      if from <= Midnight(occurrence) <= to {
        out := out + [occurrence];
      }
      cursor := cursor + 1;
    }
  }

  /** biweeklyOccurrences: from the anchor, back past the window's start, then forward through it. */
  method BiweeklyOccurrences(item: Item, from: Instant, to: Instant) returns (out: seq<Date>)
    requires item.cadence.Biweekly? && from <= to
    ensures out == Between(item, CeilDay(from), DayOf(to))
  {
    hide *;
    MidnightsInOrder(from);
    MidnightsInOrder(to);
    ghost var lo, hi := CeilDay(from), DayOf(to);
    if item.anchor.None? {
      NoAnchorNoOccurrence(item, lo, hi);
      return [];
    }
    var cursor := item.anchor.value;
    AnchorOnSeries(item);
    while Midnight(cursor) > from
      invariant OnSeries(item, cursor)
      decreases cursor - lo
    {
      StepSeries(item, cursor);
      cursor := cursor - 14;
    }
    while Midnight(cursor) < from
      invariant OnSeries(item, cursor)
      invariant cursor - 14 < lo
      decreases lo - cursor
    {
      StepSeries(item, cursor);
      cursor := cursor + 14;
    }
    out := [];
    NoneBeforeFirst(item, lo, cursor, Min(hi, cursor - 1));
    while Midnight(cursor) <= to
      invariant OnSeries(item, cursor) && lo <= cursor
      invariant out == Between(item, lo, Min(hi, cursor - 1))
      decreases hi - cursor
    {
      out := out + [cursor];
      StepSeries(item, cursor);
      BetweenExtends(item, lo, cursor);
      BetweenFortnight(item, lo, cursor, Min(hi, cursor + 13));
      cursor := cursor + 14;
    }
  }

  lemma BetweenEmpty(item: Item, lo: Date, hi: Date)
    ensures hi < lo ==> Between(item, lo, hi) == []
  {
  }

  lemma BetweenExtends(item: Item, lo: Date, day: Date)
    requires lo <= day && IsOccurrence(item, day)
    ensures Between(item, lo, day) == Between(item, lo, day - 1) + [day]
  {
  }

  lemma MonthIsNotEmpty(month: Month)
    ensures MonthStart(month) + 28 <= MonthStart(month + 1)
  {
    hide MonthStart;
    var _ := DaysInMonth(month);
  }

  lemma NoAnchorNoOccurrence(item: Item, lo: Date, hi: Date)
    requires item.cadence.Biweekly? && item.anchor.None?
    ensures Between(item, lo, hi) == []
  {
    if lo <= hi {
      BetweenSkips(item, lo, lo - 1, hi);
    }
  }

  lemma AnchorOnSeries(item: Item)
    requires item.anchor.Some?
    ensures OnSeries(item, item.anchor.value)
  {
  }

  lemma NoneBeforeFirst(item: Item, lo: Date, first: Date, hi: Date)
    requires item.cadence.Biweekly? && OnSeries(item, first)
    requires first - 14 < lo && hi < first
    ensures Between(item, lo, hi) == []
  {
    if lo <= hi {
      BetweenSkips(item, lo, lo - 1, hi);
    }
  }

  lemma StepSeries(item: Item, day: Date)
    requires OnSeries(item, day)
    ensures OnSeries(item, day - 14) && OnSeries(item, day + 14)
    ensures item.cadence.Biweekly? ==> IsOccurrence(item, day)
  {
  }

  /** Nothing falls strictly inside the fourteen days after an occurrence. */
  lemma BetweenFortnight(item: Item, lo: Date, day: Date, hi: Date)
    requires item.cadence.Biweekly? && OnSeries(item, day) && day <= hi < day + 14
    ensures Between(item, lo, hi) == Between(item, lo, day)
  {
    BetweenSkips(item, lo, day, hi);
  }

  /** Occurrences: the projection of the declaration onto [from, to]. */
  method Occurrences(item: Item, from: Instant, to: Instant) returns (out: seq<Date>)
    ensures out == Between(item, CeilDay(from), DayOf(to))
  {
    if to < from {
      return [];
    }
    match item.cadence
    case Monthly => out := MonthlyOccurrences(item, from, to);
    case Biweekly => out := BiweeklyOccurrences(item, from, to);
  }
}
