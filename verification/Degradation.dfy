/**
 What knowing less does to the figure. Losing what a bank reports about a card, losing the
 match that settles an outflow, declaring an outflow higher or an inflow lower: none of it
 ever lowers required checking. Losing the match that settles an inflow can, and exactly
 when that inflow is still to come.
 */
module Degradation {
  import opened Common
  import opened Calendar
  import opened Schedule
  import opened Windows
  import opened CashFlow
  import opened Timeline

  // ------------------------------------------------------------ the order

  /** a is b, or b no longer reported. */
  predicate ErasedFrom<T(==)>(a: Option<T>, b: Option<T>) {
    a.None? || a == b
  }

  /** A payment the bank no longer reports, reports as smaller, or never reported. */
  predicate PaymentLost(worse: Option<real>, known: Option<real>) {
    && (known.Some? ==> known.value >= 0.0)
    && (worse.Some? ==> known.Some? && 0.0 <= worse.value <= known.value)
  }

  /** A statement of which some fields are lost, or which bills more. */
  predicate StatementDegraded(worse: ReportedStatement, known: ReportedStatement) {
    && (worse.balance.Some? ==> known.balance.Some? && known.balance.value <= worse.balance.value)
    && ErasedFrom(worse.issuedAt, known.issuedAt)
    && ErasedFrom(worse.dueAt, known.dueAt)
    && ErasedFrom(worse.lastPaymentAt, known.lastPaymentAt)
    && PaymentLost(worse.lastPaymentAmount, known.lastPaymentAmount)
  }

  /** The same card, or the same owing at least as much, with any part of its statement detail lost. */
  predicate CardDegraded(worse: CardAccount, card: CardAccount) {
    || worse == card
    || (&& worse.mode == card.mode && worse.offsetDays == card.offsetDays
        && card.balance <= worse.balance
        && (worse.statement.Some? ==>
              card.statement.Some? && StatementDegraded(worse.statement.value, card.statement.value)))
  }

  /** The same item, in the same direction on the same dates. */
  predicate SameSchedule(a: Item, b: Item) {
    && a.id == b.id && a.direction == b.direction && a.cadence == b.cadence
    && a.dayOfMonth == b.dayOfMonth && a.anchor == b.anchor
  }

  /** The same declaration with an outflow raised, or an inflow lowered or left without a figure. */
  predicate ItemDegraded(worse: Item, item: Item) {
    && SameSchedule(worse, item)
    && (if item.direction.Out?
        then item.amount.Some? ==> worse.amount.Some? && item.amount.value <= worse.amount.value
        else worse.amount.Some? ==> item.amount.Some? && worse.amount.value <= item.amount.value)
  }

  /** Settlement lost for an outflow, or kept for every occurrence of an inflow that is still to come. */
  ghost predicate SettlementDegraded(worse: Settled, known: Settled, now: Instant, item: Item) {
    forall o: Date ::
      if item.direction.Out? then worse(item.id, o) ==> known(item.id, o)
      else known(item.id, o) && now <= Midnight(o) ==> worse(item.id, o)
  }

  /** What the service knows when it runs: the active cards and items, and the settled set. */
  datatype Knowledge = Knowledge(cards: seq<CardAccount>, items: seq<Item>, settled: Settled)

  ghost predicate Degraded(worse: Knowledge, known: Knowledge, now: Instant) {
    && |worse.cards| == |known.cards| && |worse.items| == |known.items|
    && (forall i :: 0 <= i < |known.cards| ==> CardDegraded(worse.cards[i], known.cards[i]))
    && (forall i :: 0 <= i < |known.items| ==> ItemDegraded(worse.items[i], known.items[i]))
    && (forall i :: 0 <= i < |known.items| ==>
          SettlementDegraded(worse.settled, known.settled, now, known.items[i]))
  }

  function Obligations(cards: seq<CardAccount>): seq<CardObligation> {
    seq(|cards|, i requires 0 <= i < |cards| => ObligationOf(cards[i]))
  }

  function InputOf(known: Knowledge, now: Instant): TimelineInput {
    TimelineInput(now, HorizonFrom(now), Obligations(known.cards), known.items, Some(known.settled))
  }

  // ---------------------------------------------------------------- cards

  lemma ExposureOfRow(name: string, date: Instant, amount: real, t: Instant)
    ensures Exposure([OutflowAt(date, name, amount)], t) == if date <= t then amount else 0.0
    ensures Exposure([], t) == 0.0
  {
    ExposureOfOne(OutflowAt(date, name, amount), t);
  }

  /** What a card weighs at t, as a number. */
  function CardWeight(now: Instant, horizon: Instant, card: CardObligation, t: Instant): real {
    if card.balance <= 0.0 || t < now then 0.0
    else if card.statement.None? then card.balance
    else
      var st := card.statement.value;
      if st.due > horizon || t < st.due then 0.0
      else RealMax(0.0, RealMin(st.balance - st.paid, card.balance))
  }

  lemma CardRowWeighs(now: Instant, horizon: Instant, card: CardObligation, t: Instant)
    ensures Exposure(CardRow(now, horizon, card), t) == CardWeight(now, horizon, card, t)
  {
    ExposureOfRow(card.name, now, card.balance, t);
    if card.statement.Some? {
      var st := card.statement.value;
      ExposureOfRow(card.name, Max(st.due, now), RealMin(st.balance - st.paid, card.balance), t);
    }
  }

  /** Whatever a bank reports, a card weighs no more than it would with nothing reported: its whole balance, at once. */
  lemma NoStatementIsTheWorstCase(now: Instant, horizon: Instant, card: CardAccount, t: Instant)
    ensures var unreported := card.(statement := None);
            && Exposure(CardRow(now, horizon, ObligationOf(card)), t) <=
               Exposure(CardRow(now, horizon, ObligationOf(unreported)), t)
            && (now <= t ==> Exposure(CardRow(now, horizon, ObligationOf(unreported)), t) == RealMax(0.0, card.balance))
  {
    hide Exposure, CardRow;
    CardRowWeighs(now, horizon, ObligationOf(card), t);
    CardRowWeighs(now, horizon, ObligationOf(card.(statement := None)), t);
  }

  /**
   A reported payment releases cash exactly when it is dated after the statement issued, something
   was billed, and what is left of the bill falls below the balance that bounds it.
   */
  lemma PaymentReleasesOnlyItsOwnStatement(now: Instant, horizon: Instant, card: CardAccount, t: Instant)
    requires card.statement.Some? && card.statement.value.balance.Some? && card.balance > 0.0
    requires card.statement.value.lastPaymentAmount.Some? && card.statement.value.lastPaymentAmount.value > 0.0
    requires PaymentDate(card).Some? && PaymentDate(card).value <= horizon && Max(PaymentDate(card).value, now) <= t
    ensures var st := card.statement.value;
            var unpaid := card.(statement := Some(st.(lastPaymentAmount := None)));
            Exposure(CardRow(now, horizon, ObligationOf(card)), t) <
                Exposure(CardRow(now, horizon, ObligationOf(unpaid)), t)
            <==>
            && st.issuedAt.Some? && st.lastPaymentAt.Some? && st.issuedAt.value < st.lastPaymentAt.value
            && st.balance.value > 0.0 && st.balance.value - st.lastPaymentAmount.value < card.balance
  {
    hide Exposure, CardRow;
    var unpaid := card.(statement := Some(card.statement.value.(lastPaymentAmount := None)));
    CardRowWeighs(now, horizon, ObligationOf(card), t);
    CardRowWeighs(now, horizon, ObligationOf(unpaid), t);
  }

  lemma CardWeightDegrades(now: Instant, horizon: Instant, worse: CardAccount, card: CardAccount, t: Instant)
    requires CardDegraded(worse, card)
    ensures CardWeight(now, horizon, ObligationOf(card), t) <= CardWeight(now, horizon, ObligationOf(worse), t)
  {
    if StatementFor(worse).Some? {
      assert StatementFor(card).Some?;
      assert StatementFor(card).value.due == StatementFor(worse).value.due;
      assert QualifyingPayment(worse.statement.value) <= QualifyingPayment(card.statement.value);
    }
  }

  lemma {:induction false} CardsDegrade(now: Instant, horizon: Instant, worse: seq<CardAccount>,
                                        cards: seq<CardAccount>, t: Instant)
    requires |worse| == |cards|
    requires forall i :: 0 <= i < |cards| ==> CardDegraded(worse[i], cards[i])
    ensures Exposure(CardRows(now, horizon, Obligations(cards)), t) <=
            Exposure(CardRows(now, horizon, Obligations(worse)), t)
  {
    hide CardRow, CardWeight, CardDegraded;
    if cards != [] {
      var n := |cards| - 1;
      CardsDegrade(now, horizon, worse[..n], cards[..n], t);
      CardWeightDegrades(now, horizon, worse[n], cards[n], t);
      LastCardWeighs(now, horizon, cards, t);
      LastCardWeighs(now, horizon, worse, t);
    }
  }

  lemma LastCardWeighs(now: Instant, horizon: Instant, cards: seq<CardAccount>, t: Instant)
    requires cards != []
    ensures Exposure(CardRows(now, horizon, Obligations(cards)), t) ==
            Exposure(CardRows(now, horizon, Obligations(cards[..|cards| - 1])), t)
            + CardWeight(now, horizon, ObligationOf(cards[|cards| - 1]), t)
  {
    hide CardRow, CardWeight;
    var all := Obligations(cards);
    assert all[..|all| - 1] == Obligations(cards[..|cards| - 1]);
    ExposureOfConcat(CardRows(now, horizon, all[..|all| - 1]), CardRow(now, horizon, all[|all| - 1]), t);
    CardRowWeighs(now, horizon, all[|all| - 1], t);
  }

  // ---------------------------------------------------------------- items

  lemma OccurrenceDegrades(now: Instant, worseSettled: Settled, settled: Settled, worse: Item, item: Item, o: Date,
                           t: Instant)
    requires ItemDegraded(worse, item) && UsableAmounts([worse]) && UsableAmounts([item])
    requires SettlementDegraded(worseSettled, settled, now, item)
    ensures Exposure(OccurrenceRow(now, settled, item, o), t) <=
            Exposure(OccurrenceRow(now, worseSettled, worse, o), t)
  {
    hide Midnight;
    assert [item][0] == item && [worse][0] == worse;
    RowWeighs(now, settled, item, o, t);
    RowWeighs(now, worseSettled, worse, o, t);
  }

  /** What an occurrence weighs at t, as a number. */
  function OccurrenceWeight(now: Instant, settled: Settled, item: Item, o: Date, t: Instant): real {
    if settled(item.id, o) || item.amount.None? then 0.0
    else if item.direction.In? then (if now <= Midnight(o) < t then -item.amount.value else 0.0)
    else (if Max(Midnight(o), now) <= t then item.amount.value else 0.0)
  }

  lemma RowWeighs(now: Instant, settled: Settled, item: Item, o: Date, t: Instant)
    ensures Exposure(OccurrenceRow(now, settled, item, o), t) == OccurrenceWeight(now, settled, item, o, t)
  {
    hide Midnight, Exposure;
    var row := OccurrenceRow(now, settled, item, o);
    ExposureOfRow("", 0, 0.0, t);
    if row != [] {
      assert row == [row[0]];
      ExposureOfOne(row[0], t);
    }
  }

  lemma {:induction false} OccurrencesDegrade(now: Instant, worseSettled: Settled, settled: Settled, worse: Item,
                                              item: Item,
                                              occurrences: seq<Date>, t: Instant)
    requires ItemDegraded(worse, item) && UsableAmounts([worse]) && UsableAmounts([item])
    requires SettlementDegraded(worseSettled, settled, now, item)
    ensures Exposure(OccurrenceRows(now, settled, item, occurrences), t) <=
            Exposure(OccurrenceRows(now, worseSettled, worse, occurrences), t)
  {
    hide OccurrenceRow, ItemDegraded, SettlementDegraded, UsableAmounts;
    if occurrences != [] {
      var n := |occurrences| - 1;
      OccurrencesDegrade(now, worseSettled, settled, worse, item, occurrences[..n], t);
      OccurrenceDegrades(now, worseSettled, settled, worse, item, occurrences[n], t);
      ExposureOfConcat(OccurrenceRows(now, settled, item, occurrences[..n]),
                       OccurrenceRow(now, settled, item, occurrences[n]), t);
      ExposureOfConcat(OccurrenceRows(now, worseSettled, worse, occurrences[..n]),
                       OccurrenceRow(now, worseSettled, worse, occurrences[n]), t);
    }
  }

  lemma DegradedKeepsItsSchedule(worse: Item, item: Item)
    requires ItemDegraded(worse, item)
    ensures SameSchedule(worse, item)
  {
  }

  lemma SameDatesConsidered(now: Instant, horizon: Instant, worse: Item, item: Item)
    requires SameSchedule(worse, item)
    ensures Considered(now, horizon, worse) == Considered(now, horizon, item)
  {
    var w := OccurrenceWindow(now, horizon);
    SameSeries(worse, item, CeilDay(OneCadenceBefore(item, w.0)), DayOf(w.1));
  }

  lemma {:induction false} SameSeries(worse: Item, item: Item, lo: Date, hi: Date)
    requires SameSchedule(worse, item)
    ensures Between(worse, lo, hi) == Between(item, lo, hi)
    decreases hi - lo + 1
  {
    hide MonthStart;
    if lo <= hi {
      SameSeries(worse, item, lo, hi - 1);
    }
  }

  lemma {:induction false} ItemsDegrade(now: Instant, horizon: Instant, worseSettled: Settled, settled: Settled,
                                        worse: seq<Item>, items: seq<Item>, t: Instant)
    requires |worse| == |items|
    requires forall i :: 0 <= i < |items| ==> ItemDegraded(worse[i], items[i])
    requires UsableAmounts(worse) && UsableAmounts(items)
    requires forall i :: 0 <= i < |items| ==> SettlementDegraded(worseSettled, settled, now, items[i])
    ensures Exposure(ItemRows(now, horizon, settled, items), t) <=
            Exposure(ItemRows(now, horizon, worseSettled, worse), t)
  {
    hide OccurrenceRows, ItemDegraded, SettlementDegraded, Considered, Midnight;
    if items != [] {
      var n := |items| - 1;
      ItemsDegrade(now, horizon, worseSettled, settled, worse[..n], items[..n], t);
      DegradedKeepsItsSchedule(worse[n], items[n]);
      SameDatesConsidered(now, horizon, worse[n], items[n]);
      assert [items[n]][0] == items[n] && [worse[n]][0] == worse[n];
      var dates := Considered(now, horizon, items[n]);
      OccurrencesDegrade(now, worseSettled, settled, worse[n], items[n], dates, t);
      ExposureOfConcat(ItemRows(now, horizon, settled, items[..n]),
                       OccurrenceRows(now, settled, items[n], dates), t);
      ExposureOfConcat(ItemRows(now, horizon, worseSettled, worse[..n]),
                       OccurrenceRows(now, worseSettled, worse[n], dates), t);
    }
  }

  // ----------------------------------------------------------- the result

  lemma HorizonIsAhead(now: Instant)
    ensures now <= HorizonFrom(now)
  {
    hide AddMonthsClampedDate;
    OneMonthSpan(DayOf(now));
  }

  /** Knowing less never lowers the figure. */
  lemma DegradationIsConservative(worse: Knowledge, known: Knowledge, now: Instant)
    requires Degraded(worse, known, now)
    requires UsableAmounts(worse.items) && UsableAmounts(known.items)
    ensures Required(Rows(InputOf(known, now))) <= Required(Rows(InputOf(worse, now)))
  {
    hide Required, CardRows, ItemRows, HorizonFrom, CardDegraded, ItemDegraded, SettlementDegraded;
    HorizonIsAhead(now);
    var a, b := InputOf(known, now), InputOf(worse, now);
    RowsAreWithinRun(a);
    RowsAreWithinRun(b);
    forall t ensures Exposure(Rows(a), t) <= Exposure(Rows(b), t) {
      CardsDegrade(now, a.horizon, worse.cards, known.cards, t);
      ItemsDegrade(now, a.horizon, worse.settled, known.settled, worse.items, known.items, t);
      ExposureOfConcat(CardRows(now, a.horizon, a.cards), ItemRows(now, a.horizon, known.settled, a.items), t);
      ExposureOfConcat(CardRows(now, b.horizon, b.cards), ItemRows(now, b.horizon, worse.settled, b.items), t);
    }
    RequiredFollowsExposure(Rows(a), Rows(b));
  }

  /** A run that knows of no settlement at all holds at least as much, while only outflows are declared. */
  lemma NothingSettledIsConservativeForOutflows(known: Knowledge, now: Instant)
    requires UsableAmounts(known.items)
    requires forall i :: 0 <= i < |known.items| ==> known.items[i].direction.Out?
    ensures Required(Rows(InputOf(known, now))) <= Required(Rows(InputOf(known.(settled := NothingSettled()), now)))
  {
    hide Required, Rows;
    DegradationIsConservative(known.(settled := NothingSettled()), known, now);
  }

  // ------------------------------------- where un-settling lowers the figure

  /** settled, but with one occurrence no longer settled. */
  function Unsettle(settled: Settled, item: Item, o: Date): Settled {
    (id: string, day: Date) => settled(id, day) && !(id == item.id && day == o)
  }

  /** A card whose whole statement of the given amount falls due at an instant. */
  function CardDueAt(due: Instant, amount: real): CardAccount {
    CardAccount("", amount,
                Some(ReportedStatement(Some(amount), None, Some(due), None, None)), PaidOnDueDate, 0)
  }

  function RowsOf(cards: seq<CardAccount>, items: seq<Item>, settled: Settled, now: Instant): seq<Event> {
    Rows(InputOf(Knowledge(cards, items, settled), now))
  }

  /** Whether, whatever cards are held, losing the match never lowers the figure. */
  ghost predicate UnsettlingIsConservative(now: Instant, items: seq<Item>, settled: Settled, item: Item, o: Date) {
    forall cards: seq<CardAccount> ::
      Required(RowsOf(cards, items, settled, now)) <= Required(RowsOf(cards, items, Unsettle(settled, item, o), now))
  }

  /** An inflow with a figure, among declared items with usable ones, and one occurrence of it that is settled. */
  ghost predicate IsSettledInflow(now: Instant, items: seq<Item>, settled: Settled, item: Item, o: Date) {
    && DistinctItems(items) && UsableAmounts(items) && item in items
    && item.direction.In? && item.amount.Some? && item.amount.value > 0.0
    && o in Considered(now, HorizonFrom(now), item) && settled(item.id, o)
  }

  /**
   Losing the match of one considered inflow occurrence is conservative exactly when the
   inflow had already fallen due: then it is dropped either way. While it is still to
   come, un-settling it puts back an inflow that later outflows are offset against.
   */
  lemma UnsettlingAnInflow(now: Instant, items: seq<Item>, settled: Settled, item: Item, o: Date)
    requires IsSettledInflow(now, items, settled, item, o)
    ensures UnsettlingIsConservative(now, items, settled, item, o) <==> Midnight(o) < now
  {
    hide Required, Rows, InputOf, Midnight, Considered, HorizonFrom;
    if Midnight(o) < now {
      forall cards: seq<CardAccount>
        ensures RowsOf(cards, items, settled, now) == RowsOf(cards, items, Unsettle(settled, item, o), now)
      {
        PastInflowAddsNoRow(now, cards, items, settled, item, o);
      }
    } else {
      var cards := UnsettlingLowers(now, items, settled, item, o);
    }
  }

  lemma {:induction false} SameRowsForPastInflow(now: Instant, item: Item, settled: Settled, o: Date,
                                                 occurrences: seq<Date>)
    requires item.direction.In? && Midnight(o) < now
    ensures OccurrenceRows(now, Unsettle(settled, item, o), item, occurrences) ==
            OccurrenceRows(now, settled, item, occurrences)
  {
    hide Midnight;
    if occurrences != [] {
      SameRowsForPastInflow(now, item, settled, o, occurrences[..|occurrences| - 1]);
    }
  }

  /** Another item's rows do not change. */
  lemma {:induction false} SameRowsForOthers(now: Instant, item: Item, settled: Settled, o: Date, other: Item,
                                             occurrences: seq<Date>)
    requires other.id != item.id
    ensures OccurrenceRows(now, Unsettle(settled, item, o), other, occurrences) ==
            OccurrenceRows(now, settled, other, occurrences)
  {
    hide Midnight;
    if occurrences != [] {
      SameRowsForOthers(now, item, settled, o, other, occurrences[..|occurrences| - 1]);
    }
  }

  /** The item is the only one of its id. */
  ghost predicate IsOnly(items: seq<Item>, item: Item) {
    forall i :: 0 <= i < |items| && items[i].id == item.id ==> items[i] == item
  }

  lemma ItemIsOnly(items: seq<Item>, item: Item)
    requires DistinctItems(items) && item in items
    ensures IsOnly(items, item)
  {
    var k :| 0 <= k < |items| && items[k] == item;
  }

  lemma {:induction false} SameItemRowsForPastInflow(now: Instant, horizon: Instant, items: seq<Item>, settled: Settled,
                                                     item: Item, o: Date)
    requires item.direction.In? && Midnight(o) < now && IsOnly(items, item)
    ensures ItemRows(now, horizon, Unsettle(settled, item, o), items) == ItemRows(now, horizon, settled, items)
  {
    hide OccurrenceRows, Considered, Midnight, Unsettle;
    if items != [] {
      var n := |items| - 1;
      var dates := Considered(now, horizon, items[n]);
      SameItemRowsForPastInflow(now, horizon, items[..n], settled, item, o);
      if items[n].id == item.id {
        SameRowsForPastInflow(now, item, settled, o, dates);
      } else {
        SameRowsForOthers(now, item, settled, o, items[n], dates);
      }
    }
  }

  lemma PastInflowAddsNoRow(now: Instant, cards: seq<CardAccount>, items: seq<Item>, settled: Settled, item: Item,
                            o: Date)
    requires DistinctItems(items) && item in items && item.direction.In? && Midnight(o) < now
    ensures RowsOf(cards, items, settled, now) == RowsOf(cards, items, Unsettle(settled, item, o), now)
  {
    hide CardRows, ItemRows, HorizonFrom, Midnight, Unsettle;
    ItemIsOnly(items, item);
    SameItemRowsForPastInflow(now, HorizonFrom(now), items, settled, item, o);
  }

  /** Un-settling one coming occurrence takes its amount off every later exposure. */
  lemma {:induction false} UnsettlingOffsets(now: Instant, settled: Settled, item: Item, o: Date,
                                             occurrences: seq<Date>, t: Instant)
    requires item.direction.In? && item.amount.Some? && settled(item.id, o) && now <= Midnight(o) < t
    requires forall i, j :: 0 <= i < j < |occurrences| ==> occurrences[i] < occurrences[j]
    ensures Exposure(OccurrenceRows(now, Unsettle(settled, item, o), item, occurrences), t) ==
            Exposure(OccurrenceRows(now, settled, item, occurrences), t)
            - (if o in occurrences then item.amount.value else 0.0)
  {
    hide OccurrenceRow, Midnight;
    if occurrences != [] {
      var n := |occurrences| - 1;
      UnsettlingOffsets(now, settled, item, o, occurrences[..n], t);
      LastOccurrenceWeighs(now, settled, item, occurrences, t);
      LastOccurrenceWeighs(now, Unsettle(settled, item, o), item, occurrences, t);
      assert occurrences[n] !in occurrences[..n];
    }
  }

  lemma LastOccurrenceWeighs(now: Instant, settled: Settled, item: Item, occurrences: seq<Date>, t: Instant)
    requires occurrences != []
    ensures Exposure(OccurrenceRows(now, settled, item, occurrences), t) ==
            Exposure(OccurrenceRows(now, settled, item, occurrences[..|occurrences| - 1]), t)
            + OccurrenceWeight(now, settled, item, occurrences[|occurrences| - 1], t)
  {
    hide OccurrenceRow, OccurrenceWeight, Exposure;
    var n := |occurrences| - 1;
    ExposureOfConcat(OccurrenceRows(now, settled, item, occurrences[..n]),
                     OccurrenceRow(now, settled, item, occurrences[n]), t);
    RowWeighs(now, settled, item, occurrences[n], t);
  }

  lemma LastItemWeighs(now: Instant, horizon: Instant, settled: Settled, items: seq<Item>, t: Instant)
    requires items != []
    ensures var last := items[|items| - 1];
            Exposure(ItemRows(now, horizon, settled, items), t) ==
            Exposure(ItemRows(now, horizon, settled, items[..|items| - 1]), t)
            + Exposure(OccurrenceRows(now, settled, last, Considered(now, horizon, last)), t)
  {
    hide OccurrenceRows, Considered, Exposure;
    var n := |items| - 1;
    ExposureOfConcat(ItemRows(now, horizon, settled, items[..n]),
                     OccurrenceRows(now, settled, items[n], Considered(now, horizon, items[n])), t);
  }

  /** The same over all the items, of which one is the inflow. */
  lemma {:induction false} UnsettlingOffsetsItems(now: Instant, horizon: Instant, items: seq<Item>, settled: Settled,
                                                  item: Item, o: Date, t: Instant)
    requires DistinctItems(items) && IsOnly(items, item)
    requires item.direction.In? && item.amount.Some? && settled(item.id, o) && now <= Midnight(o) < t
    requires o in Considered(now, horizon, item)
    ensures Exposure(ItemRows(now, horizon, Unsettle(settled, item, o), items), t) ==
            Exposure(ItemRows(now, horizon, settled, items), t) - (if item in items then item.amount.value else 0.0)
  {
    hide OccurrenceRows, Considered, Midnight, Exposure, ItemRows;
    var less := Unsettle(settled, item, o);
    if items == [] {
      NoItemsNoRows(now, horizon, less, settled);
    } else {
      hide Unsettle;
      var n := |items| - 1;
      var dates := Considered(now, horizon, items[n]);
      UnsettlingOffsetsItems(now, horizon, items[..n], settled, item, o, t);
      LastItemWeighs(now, horizon, settled, items, t);
      LastItemWeighs(now, horizon, less, items, t);
      assert items == items[..n] + [items[n]];
      if items[n].id == item.id {
        ConsideredAscend(now, horizon, item);
        UnsettlingOffsets(now, settled, item, o, dates, t);
        assert item !in items[..n];
      } else {
        SameRowsForOthers(now, item, settled, o, items[n], dates);
      }
    }
  }

  lemma NoItemsNoRows(now: Instant, horizon: Instant, a: Settled, b: Settled)
    ensures ItemRows(now, horizon, a, []) == [] == ItemRows(now, horizon, b, [])
  {
  }

  /** One card due within the run weighs its amount from its date on, beside what the items weigh. */
  lemma ExposureWithOneCard(now: Instant, due: Instant, amount: real, items: seq<Item>, settled: Settled, t: Instant)
    requires amount > 0.0 && now <= due <= HorizonFrom(now)
    ensures Exposure(RowsOf([CardDueAt(due, amount)], items, settled, now), t) ==
            (if t < due then 0.0 else amount) + Exposure(ItemRows(now, HorizonFrom(now), settled, items), t)
  {
    hide HorizonFrom, ItemRows, Exposure, CardRow, CardRows;
    var horizon, cards := HorizonFrom(now), [CardDueAt(due, amount)];
    ExposureOfConcat(CardRows(now, horizon, Obligations(cards)), ItemRows(now, horizon, settled, items), t);
    LastCardWeighs(now, horizon, cards, t);
    NoCardsWeighNothing(now, horizon, cards[..0], t);
  }

  lemma ExposureWithoutCards(now: Instant, items: seq<Item>, settled: Settled, t: Instant)
    ensures Exposure(RowsOf([], items, settled, now), t) == Exposure(ItemRows(now, HorizonFrom(now), settled, items), t)
  {
    hide HorizonFrom, ItemRows, Exposure;
    var rows := ItemRows(now, HorizonFrom(now), settled, items);
    assert CardRows(now, HorizonFrom(now), Obligations([])) == [];
    assert RowsOf([], items, settled, now) == rows;
  }

  lemma NoCardsWeighNothing(now: Instant, horizon: Instant, cards: seq<CardAccount>, t: Instant)
    requires cards == []
    ensures Exposure(CardRows(now, horizon, Obligations(cards)), t) == 0.0
  {
  }

  /** A card due at the horizon and larger than all else shows it: with the inflow settled the figure is the higher. */
  lemma UnsettlingLowers(now: Instant, items: seq<Item>, settled: Settled, item: Item, o: Date)
    returns (cards: seq<CardAccount>)
    requires IsSettledInflow(now, items, settled, item, o) && now <= Midnight(o)
    ensures Required(RowsOf(cards, items, Unsettle(settled, item, o), now)) <
            Required(RowsOf(cards, items, settled, now))
  {
    hide Considered, HorizonFrom, ItemRows, Exposure, RowsOf, Required, Midnight, DayOf, UsableAmounts, Unsettle,
         CardDueAt;
    var horizon, less := HorizonFrom(now), Unsettle(settled, item, o);
    ItemIsOnly(items, item);
    ConsideredDates(now, horizon, item, o);
    MidnightBefore(o, horizon);
    UnsettlingOffsetsItems(now, horizon, items, settled, item, o, horizon);
    var amount := LargestByFar(now, items, less);
    cards := [CardDueAt(horizon, amount)];
    CardAtHorizonIsExposed(now, items, settled, amount);
  }

  lemma MidnightBefore(o: Date, t: Instant)
    requires o < DayOf(t)
    ensures Midnight(o) < t
  {
  }

  /** A card at the horizon that outweighs every earlier exposure: the figure is then the exposure there. */
  lemma LargestByFar(now: Instant, items: seq<Item>, settled: Settled) returns (amount: real)
    requires UsableAmounts(items)
    ensures amount > 0.0
    ensures Required(RowsOf([CardDueAt(HorizonFrom(now), amount)], items, settled, now)) <=
            amount + Exposure(ItemRows(now, HorizonFrom(now), settled, items), HorizonFrom(now))
  {
    hide HorizonFrom, ItemRows, Exposure, RowsOf, Required, UsableAmounts, CardDueAt;
    var horizon := HorizonFrom(now);
    HorizonIsAhead(now);
    var base := RowsOf([], items, settled, now);
    RunRows([], items, settled, now);
    PeakIsWorstExposure(base);
    ExposureWithoutCards(now, items, settled, horizon);
    amount := Required(base) - Exposure(ItemRows(now, horizon, settled, items), horizon) + 1.0;
    var cards := [CardDueAt(horizon, amount)];
    RunRows(cards, items, settled, now);
    var rows := RowsOf(cards, items, settled, now);
    PeakIsWorstExposure(rows);
    forall e | e in rows ensures Exposure(rows, e.date) <= Required(base) + 1.0 {
      ExposureWithOneCard(now, horizon, amount, items, settled, e.date);
      ExposureWithoutCards(now, items, settled, e.date);
    }
  }

  lemma CardAtHorizonIsExposed(now: Instant, items: seq<Item>, settled: Settled, amount: real)
    requires UsableAmounts(items) && amount > 0.0
    ensures Required(RowsOf([CardDueAt(HorizonFrom(now), amount)], items, settled, now)) >=
            amount + Exposure(ItemRows(now, HorizonFrom(now), settled, items), HorizonFrom(now))
  {
    hide HorizonFrom, ItemRows, Exposure, RowsOf, Required, UsableAmounts, CardDueAt;
    HorizonIsAhead(now);
    RunRows([CardDueAt(HorizonFrom(now), amount)], items, settled, now);
    PeakIsWorstExposure(RowsOf([CardDueAt(HorizonFrom(now), amount)], items, settled, now));
    ExposureWithOneCard(now, HorizonFrom(now), amount, items, settled, HorizonFrom(now));
  }

  /** Every row of a run is non-negative and dated by the horizon. */
  lemma RunRows(cards: seq<CardAccount>, items: seq<Item>, settled: Settled, now: Instant)
    requires UsableAmounts(items)
    ensures var rows := RowsOf(cards, items, settled, now);
            NonNegative(rows) && forall e :: e in rows ==> now <= e.date <= HorizonFrom(now)
  {
    hide HorizonFrom, Rows, UsableAmounts;
    HorizonIsAhead(now);
    RowsAreWithinRun(InputOf(Knowledge(cards, items, settled), now));
  }
}
