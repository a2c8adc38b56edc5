/**
 Bills that fall due on a payday. Occurrences are midnights of the program's own zone
 (src/internal/schedule/schedule.go); a card's payment date is whatever instant the bank's date was
 read as, and the bank's dates are read as midnights of UTC (src/internal/plaid/entities.go). In a zone
 ahead of UTC the paycheck of a day therefore sorts before the statement due that day, and the figure
 counts on it.
 */
module Paydays {
  import opened Common
  import opened Calendar
  import opened Schedule
  import opened Windows
  import opened CashFlow
  import opened ClearingDays
  import opened Timeline
  import opened Degradation

  /** An occurrence of an inflow that the run expects. */
  ghost predicate IsComing(now: Instant, settled: Settled, item: Item, o: Date) {
    && item.direction.In? && o in Considered(now, HorizonFrom(now), item)
    && !settled(item.id, o) && now <= Midnight(o)
  }

  /** A card's payment that its day puts no later than a coming inflow, and its instant behind it. */
  ghost predicate FallsBehind(day: Reading, now: Instant, card: CardAccount, settled: Settled, item: Item, o: Date) {
    && IsComing(now, settled, item, o)
    && PaymentDate(card).Some? && Midnight(o) < PaymentDate(card).value <= HorizonFrom(now)
    && day(PaymentDate(card).value) <= o
  }

  ghost predicate NoCardFallsBehind(day: Reading, now: Instant, known: Knowledge) {
    forall card, item, o :: card in known.cards && item in known.items ==>
      !FallsBehind(day, now, card, known.settled, item, o)
  }

  // -------------------------------------------------- where the rows stand

  ghost predicate IsPlacedItemRow(now: Instant, settled: Settled, items: seq<Item>, e: Event) {
    if e.direction.EventIn?
    then exists item, o :: item in items && IsComing(now, settled, item, o) && e.date == Midnight(o)
    else e.date == now || exists o: Date :: e.date == Midnight(o)
  }

  ghost predicate IsPlacedCardRow(now: Instant, cards: seq<CardAccount>, e: Event) {
    && e.direction.EventOut?
    && (|| e.date == now
        || exists card :: card in cards && PaymentDate(card) == Some(e.date) && e.date <= HorizonFrom(now))
  }

  lemma OccurrenceRowIsPlaced(now: Instant, settled: Settled, items: seq<Item>, item: Item, o: Date)
    requires item in items && o in Considered(now, HorizonFrom(now), item)
    ensures forall e :: e in OccurrenceRow(now, settled, item, o) ==> IsPlacedItemRow(now, settled, items, e)
  {
    hide Midnight, Considered, HorizonFrom;
    forall e | e in OccurrenceRow(now, settled, item, o) ensures IsPlacedItemRow(now, settled, items, e) {
      if e.direction.EventIn? {
        assert IsComing(now, settled, item, o);
      }
    }
  }

  lemma {:induction false} OccurrenceRowsArePlaced(now: Instant, settled: Settled, items: seq<Item>, item: Item,
                                                   dates: seq<Date>)
    requires item in items && forall o :: o in dates ==> o in Considered(now, HorizonFrom(now), item)
    ensures forall e :: e in OccurrenceRows(now, settled, item, dates) ==> IsPlacedItemRow(now, settled, items, e)
  {
    hide OccurrenceRow, Considered, IsPlacedItemRow, HorizonFrom;
    if dates != [] {
      OccurrenceRowsArePlaced(now, settled, items, item, dates[..|dates| - 1]);
      OccurrenceRowIsPlaced(now, settled, items, item, dates[|dates| - 1]);
    }
  }

  lemma {:induction false} ItemRowsArePlaced(now: Instant, settled: Settled, items: seq<Item>, n: nat)
    requires n <= |items|
    ensures forall e :: e in ItemRows(now, HorizonFrom(now), settled, items[..n]) ==>
            IsPlacedItemRow(now, settled, items, e)
  {
    hide OccurrenceRows, Considered, IsPlacedItemRow, HorizonFrom;
    if n > 0 {
      ItemRowsArePlaced(now, settled, items, n - 1);
      OneMoreItem(now, HorizonFrom(now), settled, items, n - 1);
      OccurrenceRowsArePlaced(now, settled, items, items[n - 1], Considered(now, HorizonFrom(now), items[n - 1]));
    } else {
      NoItemsNoRows(now, HorizonFrom(now), settled, settled);
    }
  }

  lemma CardRowIsPlaced(now: Instant, cards: seq<CardAccount>, card: CardAccount)
    requires card in cards
    ensures forall e :: e in CardRow(now, HorizonFrom(now), ObligationOf(card)) ==> IsPlacedCardRow(now, cards, e)
  {
    hide PaymentDate, HorizonFrom;
    HorizonIsAhead(now);
  }

  lemma {:induction false} CardRowsArePlaced(now: Instant, cards: seq<CardAccount>, n: nat)
    requires n <= |cards|
    ensures forall e :: e in CardRows(now, HorizonFrom(now), Obligations(cards)[..n]) ==> IsPlacedCardRow(now, cards, e)
  {
    hide CardRow, IsPlacedCardRow, HorizonFrom, ObligationOf;
    if n > 0 {
      CardRowsArePlaced(now, cards, n - 1);
      OneMoreCard(now, HorizonFrom(now), Obligations(cards), n - 1);
      CardRowIsPlaced(now, cards, cards[n - 1]);
    }
  }

  lemma RowsArePlaced(now: Instant, known: Knowledge)
    ensures forall e :: e in Rows(InputOf(known, now)) ==>
              IsPlacedCardRow(now, known.cards, e) || IsPlacedItemRow(now, known.settled, known.items, e)
  {
    hide CardRows, ItemRows, IsPlacedCardRow, IsPlacedItemRow, HorizonFrom, ObligationOf;
    CardRowsArePlaced(now, known.cards, |known.cards|);
    ItemRowsArePlaced(now, known.settled, known.items, |known.items|);
    assert Obligations(known.cards)[..|known.cards|] == Obligations(known.cards);
    assert known.items[..|known.items|] == known.items;
  }

  /** Only a card can be misplaced: the schedule's outflows stand at midnights or at the run itself. */
  lemma OnlyCardsFallBehind(day: Reading, now: Instant, known: Knowledge)
    requires IsReading(day) && UsableAmounts(known.items)
    ensures InflowsAtMidnight(Rows(InputOf(known, now))) && NonNegative(Rows(InputOf(known, now)))
    ensures NoCardFallsBehind(day, now, known) ==> WellPlaced(day, Rows(InputOf(known, now)))
  {
    hide Rows, HorizonFrom, Considered, Midnight, UsableAmounts;
    var rows := Rows(InputOf(known, now));
    RowsArePlaced(now, known);
    RunRows(known.cards, known.items, known.settled, now);
    if NoCardFallsBehind(day, now, known) {
      forall a, b | a in rows && b in rows ensures !Misplaced(day, a, b) {
        if Misplaced(day, a, b) {
          MisplacedRowIsACard(day, now, known, a, b);
          assert false;
        }
      }
    }
  }

  lemma MisplacedRowIsACard(day: Reading, now: Instant, known: Knowledge, a: Event, b: Event)
    requires IsReading(day) && Misplaced(day, a, b) && now <= b.date
    requires IsPlacedCardRow(now, known.cards, a) || IsPlacedItemRow(now, known.settled, known.items, a)
    requires IsPlacedCardRow(now, known.cards, b) || IsPlacedItemRow(now, known.settled, known.items, b)
    ensures !NoCardFallsBehind(day, now, known)
  {
    hide HorizonFrom, Considered, Midnight;
    var item, o :| item in known.items && IsComing(now, known.settled, item, o) && b.date == Midnight(o);
    if p: Date :| a.date == Midnight(p) {
      MidnightsAscend(p, o);
      MidnightsAscend(o, p);
    }
    var card :| card in known.cards && PaymentDate(card) == Some(a.date) && a.date <= HorizonFrom(now);
    assert FallsBehind(day, now, card, known.settled, item, o);
  }

  // --------------------------------------------------- one card, one payday

  lemma {:induction false} InflowItemsGiveInflows(now: Instant, settled: Settled, items: seq<Item>)
    requires forall i :: 0 <= i < |items| && items[i].amount.Some? ==> items[i].direction.In?
    ensures forall e :: e in ItemRows(now, HorizonFrom(now), settled, items) ==> e.direction.EventIn?
  {
    hide OccurrenceRows, Considered, HorizonFrom;
    if items != [] {
      var n := |items| - 1;
      InflowItemsGiveInflows(now, settled, items[..n]);
      InflowItemGivesInflows(now, settled, items[n], Considered(now, HorizonFrom(now), items[n]));
    }
  }

  lemma {:induction false} InflowItemGivesInflows(now: Instant, settled: Settled, item: Item, dates: seq<Date>)
    requires item.amount.Some? ==> item.direction.In?
    ensures forall e :: e in OccurrenceRows(now, settled, item, dates) ==> e.direction.EventIn?
  {
    hide Midnight;
    if dates != [] {
      InflowItemGivesInflows(now, settled, item, dates[..|dates| - 1]);
    }
  }

  function InflowAt(item: Item, o: Date): Event
    requires item.amount.Some?
  {
    Event(Midnight(o), item.name, EventIn, item.amount.value, 0.0, false, None)
  }

  /** A coming inflow with a figure has its row. */
  lemma ComingInflowHasItsRow(now: Instant, settled: Settled, items: seq<Item>, item: Item, o: Date)
    requires item in items && item.amount.Some? && IsComing(now, settled, item, o)
    ensures InflowAt(item, o) in ItemRows(now, HorizonFrom(now), settled, items)
  {
    hide OccurrenceRows, Considered, HorizonFrom, Midnight;
    OccurrenceHasItsRow(now, settled, item, o, Considered(now, HorizonFrom(now), item));
    ItemHasItsRows(now, settled, items, item);
  }

  lemma {:induction false} OccurrenceHasItsRow(now: Instant, settled: Settled, item: Item, o: Date, dates: seq<Date>)
    requires item.amount.Some? && item.direction.In? && !settled(item.id, o) && now <= Midnight(o) && o in dates
    ensures InflowAt(item, o) in OccurrenceRows(now, settled, item, dates)
  {
    hide Midnight;
    if dates[|dates| - 1] != o {
      OccurrenceHasItsRow(now, settled, item, o, dates[..|dates| - 1]);
    }
  }

  lemma {:induction false} ItemHasItsRows(now: Instant, settled: Settled, items: seq<Item>, item: Item)
    requires item in items
    ensures forall e :: e in OccurrenceRows(now, settled, item, Considered(now, HorizonFrom(now), item)) ==>
              e in ItemRows(now, HorizonFrom(now), settled, items)
  {
    hide OccurrenceRows, Considered, HorizonFrom;
    if items[|items| - 1] != item {
      ItemHasItsRows(now, settled, items[..|items| - 1], item);
    }
  }

  /** The items' inflows of a run, and what the cards' one row is misplaced behind. */
  lemma InflowRows(now: Instant, settled: Settled, items: seq<Item>)
    requires UsableAmounts(items) && forall i :: 0 <= i < |items| && items[i].amount.Some? ==> items[i].direction.In?
    ensures var inflows := ItemRows(now, HorizonFrom(now), settled, items);
            AreInflows(inflows) && InflowsAtMidnight(inflows)
  {
    hide ItemRows, HorizonFrom, Considered, Midnight, UsableAmounts;
    InflowItemsGiveInflows(now, settled, items);
    ItemRowsArePlaced(now, settled, items, |items|);
    assert items[..|items|] == items;
    HorizonIsAhead(now);
    ItemRowsAreWithinRun(now, HorizonFrom(now), settled, items);
  }

  /** The amount at which the inflows up to a due date offset the bill due then in full. */
  ghost function OffsetInFull(now: Instant, settled: Settled, items: seq<Item>, due: Instant): real {
    -Exposure(ItemRows(now, HorizonFrom(now), settled, items), due)
  }

  /** Such a bill, behind a payday of its day, is required by the day and not by the instants. */
  lemma BillBehindPayday(day: Reading, now: Instant, items: seq<Item>, settled: Settled, item: Item, o: Date,
                         bill: Event)
    requires IsReading(day) && UsableAmounts(items)
    requires forall i :: 0 <= i < |items| && items[i].amount.Some? ==> items[i].direction.In?
    requires item in items && item.amount.Some? && item.amount.value > 0.0 && IsComing(now, settled, item, o)
    requires bill.direction.EventOut? && Midnight(o) < bill.date && day(bill.date) <= o
    requires bill.amount == OffsetInFull(now, settled, items, bill.date)
    ensures bill.amount >= item.amount.value
    ensures var rows := [bill] + ItemRows(now, HorizonFrom(now), settled, items);
            && Required(rows) == 0.0 && DayRequired(day, rows) >= item.amount.value
            && (bill.amount == item.amount.value ==> DayRequired(day, rows) == bill.amount)
            && !CoversEveryDayOrder(day, rows)
  {
    hide ItemRows, HorizonFrom, Considered, Midnight, UsableAmounts, Exposure, Required, DayRequired,
         CoversEveryDayOrder;
    var inflows := ItemRows(now, HorizonFrom(now), settled, items);
    var inflow := InflowAt(item, o);
    InflowRows(now, settled, items);
    ComingInflowHasItsRow(now, settled, items, item, o);
    InflowsOffsetMoreAndMore(inflows, inflow, inflow.date, bill.date);
    assert Misplaced(day, bill, inflow);
    MisplacedOutflowIsNotCovered(day, bill, inflows, inflow);
    assert NonNegative([bill] + inflows);
    CoveredExactlyByTheDayFigure(day, [bill] + inflows);
  }

  lemma OneCardOneRow(now: Instant, due: Instant, amount: real, items: seq<Item>, settled: Settled)
    requires amount > 0.0 && now <= due <= HorizonFrom(now)
    ensures RowsOf([CardDueAt(due, amount)], items, settled, now) ==
            [OutflowAt(due, "", amount)] + ItemRows(now, HorizonFrom(now), settled, items)
  {
    hide ItemRows, HorizonFrom;
    var all := Obligations([CardDueAt(due, amount)]);
    assert all[..0] == [];
    assert CardRows(now, HorizonFrom(now), all) == [] + [OutflowAt(due, "", amount)];
  }

  /**
   A card due on the day of a coming inflow, in a run whose other figures are inflows too: every
   order within the days is covered, whatever the card's amount, exactly when it is due no later
   than the inflow's midnight.
   */
  lemma CardDueOnAPayday(day: Reading, now: Instant, items: seq<Item>, settled: Settled, item: Item, o: Date,
                         due: Instant)
    requires IsReading(day) && UsableAmounts(items)
    requires forall i :: 0 <= i < |items| && items[i].amount.Some? ==> items[i].direction.In?
    requires item in items && item.amount.Some? && item.amount.value > 0.0 && IsComing(now, settled, item, o)
    requires day(due) == o && due <= HorizonFrom(now)
    ensures (forall amount: real :: amount > 0.0 ==>
               CoversEveryDayOrder(day, RowsOf([CardDueAt(due, amount)], items, settled, now))) <==>
            due <= Midnight(o)
  {
    hide ItemRows, HorizonFrom, Considered, Midnight, UsableAmounts, RowsOf, CoversEveryDayOrder, OffsetInFull;
    if due <= Midnight(o) {
      forall amount: real | amount > 0.0
        ensures CoversEveryDayOrder(day, RowsOf([CardDueAt(due, amount)], items, settled, now))
      {
        CardDueByItsPayday(day, now, items, settled, o, due, amount);
      }
    } else {
      var amount := OffsetInFull(now, settled, items, due);
      BillBehindPayday(day, now, items, settled, item, o, OutflowAt(due, "", amount));
      OneCardOneRow(now, due, amount, items, settled);
    }
  }

  lemma CardDueByItsPayday(day: Reading, now: Instant, items: seq<Item>, settled: Settled, o: Date, due: Instant,
                           amount: real)
    requires IsReading(day) && UsableAmounts(items) && day(due) == o && due <= Midnight(o)
    ensures CoversEveryDayOrder(day, RowsOf([CardDueAt(due, amount)], items, settled, now))
  {
    hide Rows, HorizonFrom, Considered, Midnight, UsableAmounts, CoversEveryDayOrder, WellPlaced, InflowsAtMidnight;
    var known := Knowledge([CardDueAt(due, amount)], items, settled);
    forall card, other, p | card in known.cards && other in known.items
      ensures !FallsBehind(day, now, card, known.settled, other, p)
    {
      MidnightsAscend(o, p);
    }
    OnlyCardsFallBehind(day, now, known);
    WellPlacedIsCovered(day, Rows(InputOf(known, now)));
  }

  /** By the day an instant falls on: covered whatever the amount exactly when the card is due at midnight. */
  lemma CardDueOnAPaydayByTheLocalDay(now: Instant, items: seq<Item>, settled: Settled, item: Item, o: Date,
                                      due: Instant)
    requires UsableAmounts(items)
    requires forall i :: 0 <= i < |items| && items[i].amount.Some? ==> items[i].direction.In?
    requires item in items && item.amount.Some? && item.amount.value > 0.0 && IsComing(now, settled, item, o)
    requires DayOf(due) == o
    ensures (forall amount: real :: amount > 0.0 ==>
               CoversEveryDayOrder(LocalDay(), RowsOf([CardDueAt(due, amount)], items, settled, now))) <==>
            TimeOfDay(due) == 0
  {
    hide RowsOf, Considered, HorizonFrom, UsableAmounts, CoversEveryDayOrder, IsReading;
    LocalDayIsAReading();
    ConsideredDates(now, HorizonFrom(now), item, o);
    DueOnItsDay(o, due, HorizonFrom(now));
    CardDueOnAPayday(LocalDay(), now, items, settled, item, o, due);
  }

  lemma DueOnItsDay(o: Date, due: Instant, horizon: Instant)
    requires DayOf(due) == o && o < DayOf(horizon)
    ensures due <= horizon && (due <= Midnight(o) <==> TimeOfDay(due) == 0)
  {
  }

  // ------------------------------------------------------- whole knowledge

  predicate SameDates(a: CardAccount, b: CardAccount) {
    && a.mode == b.mode && a.offsetDays == b.offsetDays
    && match (a.statement, b.statement)
       case (Some(x), Some(y)) => x.issuedAt == y.issuedAt && x.dueAt == y.dueAt && x.lastPaymentAt == y.lastPaymentAt
       case (None, None) => true
       case _ => false
  }

  /** The same cards, items and settlements on the same dates, with any amounts. */
  ghost predicate SameButForAmounts(priced: Knowledge, known: Knowledge) {
    && |priced.cards| == |known.cards| && |priced.items| == |known.items| && priced.settled == known.settled
    && (forall i :: 0 <= i < |known.cards| ==> SameDates(priced.cards[i], known.cards[i]))
    && (forall i :: 0 <= i < |known.items| ==> SameSchedule(priced.items[i], known.items[i]))
  }

  lemma SameDatesFallBehind(day: Reading, now: Instant, a: CardAccount, b: CardAccount, settled: Settled, i: Item,
                            j: Item, o: Date)
    requires SameDates(a, b) && SameSchedule(i, j)
    ensures FallsBehind(day, now, a, settled, i, o) <==> FallsBehind(day, now, b, settled, j, o)
  {
    hide Considered, HorizonFrom, Midnight;
    SameDatesConsidered(now, HorizonFrom(now), i, j);
  }

  /** Amounts do not enter into it. */
  lemma FallingBehindIsByTheDates(day: Reading, now: Instant, priced: Knowledge, known: Knowledge)
    requires SameButForAmounts(priced, known) && NoCardFallsBehind(day, now, known)
    ensures NoCardFallsBehind(day, now, priced)
  {
    hide FallsBehind, SameDates, SameSchedule;
    forall card, item, o | card in priced.cards && item in priced.items
      ensures !FallsBehind(day, now, card, priced.settled, item, o)
    {
      var i :| 0 <= i < |priced.cards| && priced.cards[i] == card;
      var j :| 0 <= j < |priced.items| && priced.items[j] == item;
      SameDatesFallBehind(day, now, card, known.cards[i], known.settled, item, known.items[j], o);
    }
  }

  function Billed(card: CardAccount, amount: real): CardAccount
    requires card.statement.Some?
  {
    card.(balance := amount,
          statement := Some(card.statement.value.(balance := Some(amount), lastPaymentAmount := None)))
  }

  /** Only card i owes, and it is billed the given amount; only item j has a figure. */
  function Priced(known: Knowledge, i: nat, amount: real, j: nat): Knowledge
    requires i < |known.cards| && known.cards[i].statement.Some? && j < |known.items|
  {
    Knowledge(seq(|known.cards|, k requires 0 <= k < |known.cards| =>
                    if k == i then Billed(known.cards[i], amount) else known.cards[k].(balance := 0.0)),
              PricedItems(known.items, j), known.settled)
  }

  function PricedItems(items: seq<Item>, j: nat): seq<Item>
    requires j < |items|
  {
    seq(|items|, k requires 0 <= k < |items| => items[k].(amount := if k == j then Some(1.0) else None))
  }

  lemma {:induction false} OnlyOneCardOwes(now: Instant, horizon: Instant, cards: seq<CardObligation>, i: nat)
    requires i < |cards| && forall k :: 0 <= k < |cards| && k != i ==> cards[k].balance <= 0.0
    ensures CardRows(now, horizon, cards) == CardRow(now, horizon, cards[i])
  {
    var n := |cards| - 1;
    if i < n {
      OnlyOneCardOwes(now, horizon, cards[..n], i);
    } else {
      NoCardOwes(now, horizon, cards[..n]);
    }
  }

  lemma {:induction false} NoCardOwes(now: Instant, horizon: Instant, cards: seq<CardObligation>)
    requires forall k :: 0 <= k < |cards| ==> cards[k].balance <= 0.0
    ensures CardRows(now, horizon, cards) == []
  {
    if cards != [] {
      NoCardOwes(now, horizon, cards[..|cards| - 1]);
    }
  }

  lemma PricedRows(now: Instant, known: Knowledge, i: nat, amount: real, j: nat)
    requires i < |known.cards| && j < |known.items| && PaymentDate(known.cards[i]).Some? && amount > 0.0
    requires now <= PaymentDate(known.cards[i]).value <= HorizonFrom(now)
    ensures Rows(InputOf(Priced(known, i, amount, j), now)) ==
            [OutflowAt(PaymentDate(known.cards[i]).value, known.cards[i].name, amount)]
            + ItemRows(now, HorizonFrom(now), known.settled, PricedItems(known.items, j))
  {
    hide ItemRows, HorizonFrom, CardRows, PricedItems;
    OnlyOneCardOwes(now, HorizonFrom(now), Obligations(Priced(known, i, amount, j).cards), i);
  }

  /**
   The figure covers every order within the days, whatever the amounts, exactly when no card's
   payment falls behind a coming inflow of its day or a later one.
   */
  lemma CoveredWhateverTheAmounts(day: Reading, now: Instant, known: Knowledge)
    requires IsReading(day)
    ensures (forall priced :: SameButForAmounts(priced, known) && UsableAmounts(priced.items) ==>
               CoversEveryDayOrder(day, Rows(InputOf(priced, now)))) <==>
            NoCardFallsBehind(day, now, known)
  {
    hide Rows, HorizonFrom, Considered, Midnight, UsableAmounts, CoversEveryDayOrder, SameButForAmounts, IsReading;
    hide InputOf, FallsBehind, WellPlaced, InflowsAtMidnight;
    if NoCardFallsBehind(day, now, known) {
      forall priced | SameButForAmounts(priced, known) && UsableAmounts(priced.items)
        ensures CoversEveryDayOrder(day, Rows(InputOf(priced, now)))
      {
        FallingBehindIsByTheDates(day, now, priced, known);
        OnlyCardsFallBehind(day, now, priced);
        WellPlacedIsCovered(day, Rows(InputOf(priced, now)));
      }
    } else {
      var card, item, o :| card in known.cards && item in known.items
          && FallsBehind(day, now, card, known.settled, item, o);
      var i :| 0 <= i < |known.cards| && known.cards[i] == card;
      var j :| 0 <= j < |known.items| && known.items[j] == item;
      var priced := NotCovered(day, now, known, i, j, o);
    }
  }

  lemma NotCovered(day: Reading, now: Instant, known: Knowledge, i: nat, j: nat, o: Date) returns (priced: Knowledge)
    requires IsReading(day) && i < |known.cards| && j < |known.items|
    requires FallsBehind(day, now, known.cards[i], known.settled, known.items[j], o)
    ensures SameButForAmounts(priced, known) && UsableAmounts(priced.items)
    ensures !CoversEveryDayOrder(day, Rows(InputOf(priced, now)))
  {
    hide Rows, HorizonFrom, Considered, Midnight, CoversEveryDayOrder, IsReading, InputOf, PaymentDate, ItemRows;
    var items, due := PricedItems(known.items, j), PaymentDate(known.cards[i]).value;
    var amount := OffsetInFull(now, known.settled, items, due);
    PaymentDateNeedsAStatement(known.cards[i]);
    priced := Priced(known, i, amount, j);
    assert items[j] in items && SameSchedule(items[j], known.items[j]);
    SameDatesConsidered(now, HorizonFrom(now), items[j], known.items[j]);
    BillBehindPayday(day, now, items, known.settled, items[j], o, OutflowAt(due, known.cards[i].name, amount));
    PricedRows(now, known, i, amount, j);
  }

  lemma PaymentDateNeedsAStatement(card: CardAccount)
    ensures PaymentDate(card).Some? ==> card.statement.Some?
  {
  }

  // ----------------------------------------------------------------- zones

  /** A card whose payment date is the bank's: the midnight of a zone whose midnights fall offset past the program's. */
  predicate IsBankDated(card: CardAccount, offset: int, date: Date) {
    PaymentDate(card) == Some(Midnight(date) + offset)
  }

  /** Such a card falls behind exactly the inflows of its own date, and only in a zone ahead of the bank's. */
  lemma BankDatedCardFallsBehind(now: Instant, card: CardAccount, offset: int, date: Date, settled: Settled,
                                 item: Item, o: Date)
    requires IsBankDated(card, offset, date) && -DAY < offset < DAY
    ensures FallsBehind(BankDay(offset), now, card, settled, item, o) <==>
            IsComing(now, settled, item, o) && date == o && offset > 0
  {
    hide Considered, HorizonFrom, PaymentDate;
    if IsComing(now, settled, item, o) {
      ConsideredDates(now, HorizonFrom(now), item, o);
      BankDayOfItsDate(offset, date);
      BankDateBehind(offset, date, o, HorizonFrom(now));
    }
  }

  lemma BankDayOfItsDate(offset: int, date: Date)
    requires -DAY < offset < DAY
    ensures BankDay(offset)(Midnight(date) + offset) == date
  {
  }

  lemma BankDateBehind(offset: int, date: Date, o: Date, horizon: Instant)
    requires -DAY < offset < DAY && o < DayOf(horizon)
    ensures Midnight(o) < Midnight(date) + offset <= horizon && date <= o <==> date == o && offset > 0
  {
  }

  /**
   In the bank's zone or behind it, every order within the calendar days is covered, whatever the
   amounts. Ahead of it, that holds exactly when no card's date is the date of a coming inflow.
   */
  lemma CoveredInEveryZoneNotAhead(now: Instant, known: Knowledge, offset: int)
    requires -DAY < offset < DAY
    requires forall card :: card in known.cards && PaymentDate(card).Some? ==>
               exists date: Date :: IsBankDated(card, offset, date)
    ensures (forall priced :: SameButForAmounts(priced, known) && UsableAmounts(priced.items) ==>
               CoversEveryDayOrder(BankDay(offset), Rows(InputOf(priced, now)))) <==>
            || offset <= 0
            || forall card, item, o :: card in known.cards && item in known.items && IsBankDated(card, offset, o) ==>
                             !IsComing(now, known.settled, item, o)
  {
    hide Rows, UsableAmounts, CoversEveryDayOrder, SameButForAmounts, InputOf, IsComing, PaymentDate, IsReading,
         BankDay, Midnight;
    BankDayIsAReading(offset);
    CoveredWhateverTheAmounts(BankDay(offset), now, known);
    forall card, item, o | card in known.cards && item in known.items
      ensures FallsBehind(BankDay(offset), now, card, known.settled, item, o) <==>
              offset > 0 && IsBankDated(card, offset, o) && IsComing(now, known.settled, item, o)
    {
      if date: Date :| IsBankDated(card, offset, date) {
        BankDatedCardFallsBehind(now, card, offset, date, known.settled, item, o);
        SameInstantSameDate(offset, date, o);
      }
    }
  }

  lemma SameInstantSameDate(offset: int, a: Date, b: Date)
    ensures Midnight(a) + offset == Midnight(b) + offset <==> a == b
  {
  }

  // ------------------------------------------------------------ an instance

  lemma {:induction false} OneOccurrenceOffsets(now: Instant, settled: Settled, item: Item, o: Date, dates: seq<Date>,
                                                t: Instant)
    requires item.direction.In? && item.amount.Some? && !settled(item.id, o) && now <= Midnight(o) < t
    requires forall i, j :: 0 <= i < j < |dates| ==> dates[i] < dates[j]
    requires forall other :: other in dates && other != o ==> !(now <= Midnight(other) < t)
    ensures Exposure(OccurrenceRows(now, settled, item, dates), t) == if o in dates then -item.amount.value else 0.0
  {
    hide Midnight, OccurrenceRows, Exposure;
    if dates == [] {
      NoDatesWeighNothing(now, settled, item, t);
    } else {
      var n := |dates| - 1;
      OneOccurrenceOffsets(now, settled, item, o, dates[..n], t);
      LastOccurrenceWeighs(now, settled, item, dates, t);
      assert dates[n] !in dates[..n];
      assert dates == dates[..n] + [dates[n]];
    }
  }

  lemma NoDatesWeighNothing(now: Instant, settled: Settled, item: Item, t: Instant)
    ensures Exposure(OccurrenceRows(now, settled, item, []), t) == 0.0
  {
  }

  /** A bill of one paycheck's amount, on the first payday, is offset in full. */
  lemma FirstPaydayOffsetsInFull(now: Instant, settled: Settled, item: Item, o: Date, due: Instant)
    requires item.amount.Some? && IsComing(now, settled, item, o) && Midnight(o) < due
    requires forall other :: other in Considered(now, HorizonFrom(now), item) && other != o ==>
             !(now <= Midnight(other) < due)
    ensures OffsetInFull(now, settled, [item], due) == item.amount.value
  {
    hide Considered, HorizonFrom, Midnight, OccurrenceRows, Exposure, ItemRows;
    ConsideredAscend(now, HorizonFrom(now), item);
    OneOccurrenceOffsets(now, settled, item, o, Considered(now, HorizonFrom(now), item), due);
    LastItemWeighs(now, HorizonFrom(now), settled, [item], due);
    NoItemsNoRows(now, HorizonFrom(now), settled, settled);
    assert [item][..0] == [];
    ExposureOfRow("", 0, 0.0, due);
  }

  const NINE_HOURS := 32400000000000

  /** The first of March 2024, nine in the morning. */
  function FirstOfMarch(): Instant {
    Midnight(OnDay(12 * 2024 + 2, 1)) + NINE_HOURS
  }

  function FifteenthOfMarch(): Date {
    OnDay(12 * 2024 + 2, 15)
  }

  lemma FifteenthIsComing(item: Item)
    requires item.cadence.Monthly? && item.dayOfMonth == 15 && item.direction.In?
    ensures IsComing(FirstOfMarch(), NothingSettled(), item, FifteenthOfMarch())
    ensures DayOf(FirstOfMarch()) == FifteenthOfMarch() - 14
  {
    hide MonthStart, IsComing;
    NineIsTheSameDay(OnDay(12 * 2024 + 2, 1));
    FifteenthOfTheMonthIsComing(item, 12 * 2024 + 2, FirstOfMarch());
  }

  lemma NineIsTheSameDay(day: Date)
    ensures DayOf(Midnight(day) + NINE_HOURS) == day
  {
  }

  lemma FifteenthOfTheMonthIsComing(item: Item, month: Month, now: Instant)
    requires item.cadence.Monthly? && item.dayOfMonth == 15 && item.direction.In? && DayOf(now) == OnDay(month, 1)
    ensures IsComing(now, NothingSettled(), item, OnDay(month, 15))
  {
    hide MonthStart, HorizonFrom, OneCadenceBefore, OccurrenceWindow, AddMonthsClampedDate, MonthOf, IsOccurrence,
         Between;
    hide DayOf, CeilDay, Midnight, StartOfDay;
    var o := OnDay(month, 15);
    FifteenthIsAnOccurrence(item, month);
    var w := OccurrenceWindow(now, HorizonFrom(now));
    WindowDates(now);
    LookbackDates(item, now);
    RunStartsToday(now);
    OneMonthSpan(DayOf(now));
    BetweenIsExact(item, CeilDay(OneCadenceBefore(item, w.0)), DayOf(w.1));
    LaterDayIsAhead(now, o);
  }

  lemma FifteenthIsAnOccurrence(item: Item, month: Month)
    requires item.cadence.Monthly? && item.dayOfMonth == 15
    ensures IsOccurrence(item, OnDay(month, 15))
  {
    hide MonthStart, MonthOf;
    CivilRoundTrip(OnDay(month, 15), month, 15);
  }

  lemma LaterDayIsAhead(now: Instant, o: Date)
    requires DayOf(now) < o
    ensures now <= Midnight(o)
  {
  }

  lemma RunStartsToday(now: Instant)
    ensures OccurrenceWindow(now, HorizonFrom(now)).0 == StartOfDay(now)
  {
  }

  /**
   A run at nine on 1 March 2024, nine hours ahead of UTC: a paycheck on the 15th, and a card of the
   same amount that the bank says is due on the 15th. Nothing is required, and if the debit clears
   before the deposit the whole amount is missing.
   */
  lemma PaydayBillAheadOfUTC(item: Item)
    requires item.cadence.Monthly? && item.dayOfMonth == 15 && item.direction.In?
    requires item.amount.Some? && item.amount.value > 0.0
    ensures var card := CardDueAt(Midnight(FifteenthOfMarch()) + NINE_HOURS, item.amount.value);
            var rows := RowsOf([card], [item], NothingSettled(), FirstOfMarch());
            && Required(rows) == 0.0
            && exists p :: DayOrder(LocalDay(), p, rows) && Peak(p) == item.amount.value
  {
    hide Considered, HorizonFrom, Midnight, ItemRows, FirstOfMarch, FifteenthOfMarch, NothingSettled;
    hide Required, DayRequired, IsReading, RowsOf, OffsetInFull, CoversEveryDayOrder, DayOrder, IsOccurrence, Peak;
    var now, o, settled := FirstOfMarch(), FifteenthOfMarch(), NothingSettled();
    var due := Midnight(o) + NINE_HOURS;
    FifteenthIsComing(item);
    DueOnTheFifteenth(now, o, HorizonFrom(now));
    ConsideredDates(now, HorizonFrom(now), item, o);
    forall other | other in Considered(now, HorizonFrom(now), item) && other != o
      ensures !(now <= Midnight(other) < due)
    {
      ConsideredDates(now, HorizonFrom(now), item, other);
      NoOtherPayday(item, now, o, other);
    }
    FirstPaydayOffsetsInFull(now, settled, item, o, due);
    LocalDayIsAReading();
    BillBehindPayday(LocalDay(), now, [item], settled, item, o, OutflowAt(due, "", item.amount.value));
    OneCardOneRow(now, due, item.amount.value, [item], settled);
    RunRows([CardDueAt(due, item.amount.value)], [item], settled, now);
    DayRequiredIsTheWorstDayOrder(LocalDay(), RowsOf([CardDueAt(due, item.amount.value)], [item], settled, now));
  }

  lemma DueOnTheFifteenth(now: Instant, o: Date, horizon: Instant)
    requires DayOf(now) == o - 14
    ensures now <= Midnight(o) < Midnight(o) + NINE_HOURS && DayOf(Midnight(o) + NINE_HOURS) == o
    ensures o < DayOf(horizon) ==> Midnight(o) + NINE_HOURS <= horizon
  {
  }

  lemma NoOtherPayday(item: Item, now: Instant, o: Date, other: Date)
    requires item.cadence.Monthly? && IsOccurrence(item, o) && IsOccurrence(item, other) && other != o
    requires DayOf(now) == o - 14
    ensures !(now <= Midnight(other) < Midnight(o) + NINE_HOURS)
  {
    hide IsOccurrence;
    if other < o {
      OccurrencesAreSpaced(item, other, o);
    }
  }
}
