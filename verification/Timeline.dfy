/**
 Building the sweep's timeline (src/internal/sweep/sweep.go, buildTimeline) from what the
 banks report about the cards (src/internal/sweep/service.go, statementFor and
 qualifyingPayment; src/internal/accounts/accounts.go, PaymentDate) and from the schedule.
 */
module Timeline {
  import opened Common
  import opened Calendar
  import opened Schedule
  import opened Windows
  import opened CashFlow

  // ---------------------------------------------------------------- cards

  /** accounts.CardStatement: every field is None until the bank reports it. */
  datatype ReportedStatement = ReportedStatement(
    balance: Option<real>, issuedAt: Option<Instant>, dueAt: Option<Instant>,
    lastPaymentAmount: Option<real>, lastPaymentAt: Option<Instant>)

  datatype PaymentMode = PaidOnDueDate | PaidStatementPlusDays

  datatype CardAccount = CardAccount(
    name: string, balance: real, statement: Option<ReportedStatement>, mode: PaymentMode, offsetDays: int)

  datatype CardStatement = CardStatement(balance: real, paid: real, due: Instant)

  datatype CardObligation = CardObligation(name: string, balance: real, statement: Option<CardStatement>)

  /** accounts.PaymentDate: when the statement's payment leaves checking, if that is known. */
  function PaymentDate(card: CardAccount): Option<Instant> {
    match card.statement
    case None => None
    case Some(st) =>
      if card.mode.PaidStatementPlusDays? then
        (if st.issuedAt.None? then None else Some(AddDays(st.issuedAt.value, card.offsetDays)))
      else st.dueAt
  }

  /** qualifyingPayment: a payment dated strictly after the statement issued, else nothing. */
  function QualifyingPayment(st: ReportedStatement): real {
    if st.lastPaymentAmount.None? || st.lastPaymentAt.None? || st.issuedAt.None? then 0.0
    else if !(st.lastPaymentAt.value > st.issuedAt.value) then 0.0
    else st.lastPaymentAmount.value
  }

  /** statementFor: the billed figure and its date, or None when either is unreported. */
  function StatementFor(card: CardAccount): Option<CardStatement> {
    if card.statement.None? || card.statement.value.balance.None? then None
    else if PaymentDate(card).None? then None
    else Some(CardStatement(card.statement.value.balance.value,
                            QualifyingPayment(card.statement.value),
                            PaymentDate(card).value))
  }

  function ObligationOf(card: CardAccount): CardObligation {
    CardObligation(card.name, card.balance, StatementFor(card))
  }

  /**
   What the run takes a card to owe: a statement counts once its figure and its payment date are
   both known, due on the reported date or a number of days after the statement issued, and less a
   payment reported for it, one dated after it issued.
   */
  lemma ObligationIsByItsStatement(card: CardAccount)
    ensures var (owed, st) := (ObligationOf(card), card.statement);
            && owed.name == card.name && owed.balance == card.balance
            && (owed.statement.Some? <==>
                  && st.Some? && st.value.balance.Some?
                  && (card.mode.PaidOnDueDate? ==> st.value.dueAt.Some?)
                  && (card.mode.PaidStatementPlusDays? ==> st.value.issuedAt.Some?))
            && (owed.statement.Some? ==>
                  && owed.statement.value.balance == st.value.balance.value
                  && (card.mode.PaidOnDueDate? ==> owed.statement.value.due == st.value.dueAt.value)
                  && (card.mode.PaidStatementPlusDays? ==>
                        && DayOf(owed.statement.value.due) == DayOf(st.value.issuedAt.value) + card.offsetDays
                        && TimeOfDay(owed.statement.value.due) == TimeOfDay(st.value.issuedAt.value))
                  && var reported := st.value.lastPaymentAmount.Some? && st.value.lastPaymentAt.Some?
                                     && st.value.issuedAt.Some?
                                     && st.value.lastPaymentAt.value > st.value.issuedAt.value;
                     owed.statement.value.paid == if reported then st.value.lastPaymentAmount.value else 0.0)
  {
    hide DayOf, TimeOfDay, AddDays;
    if card.statement.Some? && card.statement.value.issuedAt.Some? {
      AddDaysInstant(card.statement.value.issuedAt.value, card.offsetDays);
    }
  }

  function OutflowAt(date: Instant, name: string, amount: real): Event {
    Event(date, name, EventOut, amount, 0.0, false, None)
  }

  /** The row a card contributes, if it contributes one. */
  function CardRow(now: Instant, horizon: Instant, card: CardObligation): seq<Event> {
    if card.balance <= 0.0 then []
    else if card.statement.None? then [OutflowAt(now, card.name, card.balance)]
    else
      var st := card.statement.value;
      var amount := RealMin(st.balance - st.paid, card.balance);
      if st.due > horizon || amount <= 0.0 then []
      else [OutflowAt(Max(st.due, now), card.name, amount)]
  }

  function CardRows(now: Instant, horizon: Instant, cards: seq<CardObligation>): seq<Event> {
    if cards == [] then []
    else CardRows(now, horizon, cards[..|cards| - 1]) + CardRow(now, horizon, cards[|cards| - 1])
  }

  // ---------------------------------------------------------------- items

  type Settled = (string, Date) -> bool

  function EventDirectionOf(direction: Direction): EventDirection {
    if direction.In? then EventIn else EventOut
  }

  /** The row one occurrence contributes: none when settled, without a figure, or an inflow already due. */
  function OccurrenceRow(now: Instant, settled: Settled, item: Item, o: Date): seq<Event> {
    if settled(item.id, o) || item.amount.None? then []
    else if Midnight(o) < now then
      if item.direction.In? then []
      else [Event(now, item.name, EventOut, item.amount.value, 0.0, false, Some(o))]
    else [Event(Midnight(o), item.name, EventDirectionOf(item.direction), item.amount.value, 0.0, false, None)]
  }

  function OccurrenceRows(now: Instant, settled: Settled, item: Item, occurrences: seq<Date>): seq<Event> {
    if occurrences == [] then []
    else OccurrenceRows(now, settled, item, occurrences[..|occurrences| - 1])
         + OccurrenceRow(now, settled, item, occurrences[|occurrences| - 1])
  }

  /** The occurrences a run considers: one cadence back from today, through the window's end. */
  function Considered(now: Instant, horizon: Instant, item: Item): seq<Date> {
    var w := OccurrenceWindow(now, horizon);
    Between(item, CeilDay(OneCadenceBefore(item, w.0)), DayOf(w.1))
  }

  function ItemRows(now: Instant, horizon: Instant, settled: Settled, items: seq<Item>): seq<Event> {
    if items == [] then []
    else ItemRows(now, horizon, settled, items[..|items| - 1])
         + OccurrenceRows(now, settled, items[|items| - 1], Considered(now, horizon, items[|items| - 1]))
  }

  datatype TimelineInput = TimelineInput(
    now: Instant, horizon: Instant, cards: seq<CardObligation>, items: seq<Item>, settled: Option<Settled>)

  function NothingSettled(): Settled {
    (id: string, o: Date) => false
  }

  /** isSettled: an absent predicate settles nothing. */
  function SettledOf(input: TimelineInput): Settled {
    if input.settled.None? then NothingSettled() else input.settled.value
  }

  function Rows(input: TimelineInput): seq<Event> {
    CardRows(input.now, input.horizon, input.cards)
    + ItemRows(input.now, input.horizon, SettledOf(input), input.items)
  }

  // ------------------------------------------------ the rows, from outside

  /** The obligations of a declared item in a run: its unsettled dates from one cadence back to the horizon's date. */
  ghost predicate IsOwed(input: TimelineInput, item: Item, o: Date) {
    && item in input.items && item.amount.Some? && IsOccurrence(item, o)
    && (if item.cadence.Biweekly? then DayOf(input.now) - 14 else AddMonthsClampedDate(DayOf(input.now), -1)) <= o
    && o < DayOf(input.horizon)
    && (input.settled.Some? ==> !input.settled.value(item.id, o))
    && (item.direction.In? ==> input.now <= Midnight(o))
  }

  /** On its own date, or now with the date it was due; by name and for the declared amount. */
  function RowOf(now: Instant, item: Item, o: Date): Event
    requires item.amount.Some?
  {
    var direction := if item.direction.In? then EventIn else EventOut;
    if Midnight(o) < now then Event(now, item.name, direction, item.amount.value, 0.0, false, Some(o))
    else Event(Midnight(o), item.name, direction, item.amount.value, 0.0, false, None)
  }

  /** What a card owes in a run: all of its balance without a statement, else the rest of a bill due by the horizon. */
  ghost predicate CardOwes(input: TimelineInput, card: CardObligation, amount: real) {
    && card in input.cards && card.balance > 0.0 && amount > 0.0
    && (card.statement.None? ==> amount == card.balance)
    && (card.statement.Some? ==>
          var st := card.statement.value;
          && st.due <= input.horizon
          && amount == if st.balance - st.paid <= card.balance then st.balance - st.paid else card.balance)
  }

  function CardRowOf(now: Instant, card: CardObligation, amount: real): Event {
    var date := if card.statement.Some? && now < card.statement.value.due then card.statement.value.due else now;
    Event(date, card.name, EventOut, amount, 0.0, false, None)
  }

  /** A row for everything owed, and no other. */
  ghost predicate CoversWhatIsOwed(events: seq<Event>, input: TimelineInput) {
    && (forall item, o :: IsOwed(input, item, o) ==> RowOf(input.now, item, o) in events)
    && (forall card, amount :: CardOwes(input, card, amount) ==> CardRowOf(input.now, card, amount) in events)
    && (forall e :: e in events ==>
          || (exists item, o :: IsOwed(input, item, o) && e == RowOf(input.now, item, o))
          || (exists card, amount :: CardOwes(input, card, amount) && e == CardRowOf(input.now, card, amount)))
  }

  /** The dates an item owes in a run. */
  ghost function DatesOwed(input: TimelineInput, item: Item): set<Date> {
    var from := if item.cadence.Biweekly? then DayOf(input.now) - 14 else AddMonthsClampedDate(DayOf(input.now), -1);
    set o: Date | from <= o < DayOf(input.horizon) && IsOwed(input, item, o)
  }

  ghost function NumberOwed(input: TimelineInput, items: seq<Item>): nat {
    if items == [] then 0 else NumberOwed(input, items[..|items| - 1]) + |DatesOwed(input, items[|items| - 1])|
  }

  ghost function NumberOwing(input: TimelineInput, cards: seq<CardObligation>): nat {
    if cards == [] then 0
    else
      var last := cards[|cards| - 1];
      NumberOwing(input, cards[..|cards| - 1]) + if exists amount :: CardOwes(input, last, amount) then 1 else 0
  }

  /** buildTimeline: cards first, then every considered occurrence of every item. */
  method BuildTimeline(input: TimelineInput) returns (events: seq<Event>)
    ensures events == Rows(input)
    ensures CoversWhatIsOwed(events, input)
    ensures |events| == NumberOwing(input, input.cards) + NumberOwed(input, input.items)
  {
    hide CoversWhatIsOwed, NumberOwing, NumberOwed;
    hide Between, OneCadenceBefore, OccurrenceWindow, CeilDay, DayOf, Midnight, CardRows, OccurrenceRows, ItemRows;
    events := [];
    NoRows(input);
    for i := 0 to |input.cards|
      invariant events == CardRows(input.now, input.horizon, input.cards[..i])
    {
      var card := input.cards[i];
      OneMoreCard(input.now, input.horizon, input.cards, i);
      if card.balance <= 0.0 {
        continue;
      }
      var date, amount := input.now, card.balance;
      if card.statement.Some? {
        if card.statement.value.due > input.horizon {
          continue;
        }
        var owed := card.statement.value.balance - card.statement.value.paid;
        date, amount := card.statement.value.due, RealMin(owed, card.balance);
        if date < input.now {
          date := input.now;
        }
        if amount <= 0.0 {
          continue;
        }
      }
      events := events + [OutflowAt(date, card.name, amount)];
    }
    assert input.cards[..|input.cards|] == input.cards;
    ghost var cardRows := events;
    var settled := SettledOf(input);
    var w := OccurrenceWindow(input.now, input.horizon);
    for i := 0 to |input.items|
      invariant events == cardRows + ItemRows(input.now, input.horizon, settled, input.items[..i])
    {
      var item := input.items[i];
      OneMoreItem(input.now, input.horizon, settled, input.items, i);
      ghost var before := events;
      var from := OneCadenceBefore(item, w.0);
      var occurrences := Occurrences(item, from, w.1);
      NoOccurrences(input.now, settled, item, occurrences);
      for j := 0 to |occurrences|
        invariant events == before + OccurrenceRows(input.now, settled, item, occurrences[..j])
      {
        var occurrence := occurrences[j];
        OneMoreOccurrence(input.now, settled, item, occurrences, j);
        if settled(item.id, occurrence) {
          continue;
        }
        if item.amount.None? {
          continue;
        }
        var event := Event(Midnight(occurrence), item.name, EventDirectionOf(item.direction),
                           item.amount.value, 0.0, false, None);
        if Midnight(occurrence) < input.now {
          if event.direction.EventIn? {
            continue;
          }
          event := event.(dueOn := Some(occurrence), date := input.now);
        }
        events := events + [event];
      }
      assert occurrences[..|occurrences|] == occurrences;
    }
    assert input.items[..|input.items|] == input.items;
    RowsCoverWhatIsOwed(input);
    EachIsOwedOnce(input);
  }

  lemma OneMoreCard(now: Instant, horizon: Instant, cards: seq<CardObligation>, i: nat)
    requires i < |cards|
    ensures CardRows(now, horizon, cards[..i + 1]) ==
            CardRows(now, horizon, cards[..i]) + CardRow(now, horizon, cards[i])
  {
    assert cards[..i + 1][..i] == cards[..i];
  }

  lemma OneMoreOccurrence(now: Instant, settled: Settled, item: Item, occurrences: seq<Date>, j: nat)
    requires j < |occurrences|
    ensures OccurrenceRows(now, settled, item, occurrences[..j + 1]) ==
            OccurrenceRows(now, settled, item, occurrences[..j]) + OccurrenceRow(now, settled, item, occurrences[j])
  {
    assert occurrences[..j + 1][..j] == occurrences[..j];
  }

  lemma OneMoreItem(now: Instant, horizon: Instant, settled: Settled, items: seq<Item>, i: nat)
    requires i < |items|
    ensures ItemRows(now, horizon, settled, items[..i + 1]) ==
            ItemRows(now, horizon, settled, items[..i])
            + OccurrenceRows(now, settled, items[i], Considered(now, horizon, items[i]))
  {
    assert items[..i + 1][..i] == items[..i];
  }

  lemma NoRows(input: TimelineInput)
    ensures CardRows(input.now, input.horizon, input.cards[..0]) == []
    ensures ItemRows(input.now, input.horizon, SettledOf(input), input.items[..0]) == []
  {
  }

  lemma NoOccurrences(now: Instant, settled: Settled, item: Item, occurrences: seq<Date>)
    ensures OccurrenceRows(now, settled, item, occurrences[..0]) == []
  {
  }

  /** The considered dates are exactly the item's, from one cadence before today to the day before the horizon's. */
  lemma ConsideredIsExact(now: Instant, horizon: Instant, item: Item, o: Date)
    ensures o in Considered(now, horizon, item) <==>
            && IsOccurrence(item, o)
            && (if item.cadence.Biweekly? then DayOf(now) - 14 else AddMonthsClampedDate(DayOf(now), -1)) <= o
            && o < DayOf(horizon)
  {
    hide IsOccurrence, OneCadenceBefore, AddMonthsClampedDate;
    var w := OccurrenceWindow(now, horizon);
    LookbackDates(item, now);
    WindowEnd(horizon);
    BetweenIsExact(item, CeilDay(OneCadenceBefore(item, w.0)), DayOf(w.1));
  }

  lemma WindowEnd(horizon: Instant)
    ensures DayOf(AddDays(StartOfDay(horizon), -1)) == DayOf(horizon) - 1
  {
  }

  lemma {:induction false} OccurrenceRowsAreExact(now: Instant, settled: Settled, item: Item, dates: seq<Date>)
    ensures forall e :: e in OccurrenceRows(now, settled, item, dates) <==>
              exists o :: o in dates && e in OccurrenceRow(now, settled, item, o)
  {
    hide OccurrenceRow;
    if dates != [] {
      var n := |dates| - 1;
      OccurrenceRowsAreExact(now, settled, item, dates[..n]);
      assert dates == dates[..n] + [dates[n]];
    }
  }

  lemma {:induction false} ItemRowsAreExact(now: Instant, horizon: Instant, settled: Settled, items: seq<Item>)
    ensures forall e :: e in ItemRows(now, horizon, settled, items) <==>
              exists item :: item in items && e in OccurrenceRows(now, settled, item, Considered(now, horizon, item))
  {
    hide OccurrenceRows, Considered;
    if items != [] {
      var n := |items| - 1;
      ItemRowsAreExact(now, horizon, settled, items[..n]);
      assert items == items[..n] + [items[n]];
    }
  }

  lemma {:induction false} CardRowsAreExact(now: Instant, horizon: Instant, cards: seq<CardObligation>)
    ensures forall e :: e in CardRows(now, horizon, cards) <==>
              exists card :: card in cards && e in CardRow(now, horizon, card)
  {
    hide CardRow;
    if cards != [] {
      var n := |cards| - 1;
      CardRowsAreExact(now, horizon, cards[..n]);
      assert cards == cards[..n] + [cards[n]];
    }
  }

  lemma OwedHasItsRow(input: TimelineInput, item: Item, o: Date, e: Event)
    ensures IsOwed(input, item, o) && e == RowOf(input.now, item, o) <==>
            && item in input.items && o in Considered(input.now, input.horizon, item)
            && e in OccurrenceRow(input.now, SettledOf(input), item, o)
  {
    hide Midnight, Considered, IsOccurrence, AddMonthsClampedDate, DayOf;
    ConsideredIsExact(input.now, input.horizon, item, o);
  }

  lemma CardOwesItsRow(input: TimelineInput, card: CardObligation, e: Event)
    requires card in input.cards
    ensures e in CardRow(input.now, input.horizon, card) <==>
            CardOwes(input, card, e.amount) && e == CardRowOf(input.now, card, e.amount)
  {
  }

  lemma RowsCoverWhatIsOwed(input: TimelineInput)
    ensures CoversWhatIsOwed(Rows(input), input)
  {
    hide RowOf, CardOwes, CardRowOf, CardRows, ItemRows, OccurrenceRows, OccurrenceRow, CardRow, Considered;
    hide IsOccurrence, AddMonthsClampedDate, DayOf, Midnight;
    var settled := SettledOf(input);
    CardRowsAreExact(input.now, input.horizon, input.cards);
    ItemRowsAreExact(input.now, input.horizon, settled, input.items);
    forall item, o | IsOwed(input, item, o) ensures RowOf(input.now, item, o) in Rows(input) {
      OwedIsDeclared(input, item, o);
      OwedHasItsRow(input, item, o, RowOf(input.now, item, o));
      OccurrenceRowsAreExact(input.now, settled, item, Considered(input.now, input.horizon, item));
    }
    forall card, amount | CardOwes(input, card, amount) ensures CardRowOf(input.now, card, amount) in Rows(input) {
      CardOwesIsHeld(input, card, amount);
      CardOwesItsRow(input, card, CardRowOf(input.now, card, amount));
    }
    forall e | e in Rows(input)
      ensures || (exists item, o :: IsOwed(input, item, o) && e == RowOf(input.now, item, o))
              || (exists card, amount :: CardOwes(input, card, amount) && e == CardRowOf(input.now, card, amount))
    {
      RowIsOwed(input, e);
    }
  }

  lemma OwedIsDeclared(input: TimelineInput, item: Item, o: Date)
    requires IsOwed(input, item, o)
    ensures item in input.items && item.amount.Some?
  {
  }

  lemma CardOwesIsHeld(input: TimelineInput, card: CardObligation, amount: real)
    requires CardOwes(input, card, amount)
    ensures card in input.cards && CardRowOf(input.now, card, amount).amount == amount
  {
  }

  lemma RowIsOwed(input: TimelineInput, e: Event)
    requires e in Rows(input)
    ensures || (exists item, o :: IsOwed(input, item, o) && e == RowOf(input.now, item, o))
            || (exists card, amount :: CardOwes(input, card, amount) && e == CardRowOf(input.now, card, amount))
  {
    hide IsOwed, CardOwes, CardRowOf, CardRows, ItemRows, OccurrenceRows, OccurrenceRow, CardRow, Considered;
    var settled := SettledOf(input);
    CardRowsAreExact(input.now, input.horizon, input.cards);
    ItemRowsAreExact(input.now, input.horizon, settled, input.items);
    if e in CardRows(input.now, input.horizon, input.cards) {
      var card :| card in input.cards && e in CardRow(input.now, input.horizon, card);
      CardOwesItsRow(input, card, e);
    } else {
      var item :| item in input.items
                  && e in OccurrenceRows(input.now, settled, item, Considered(input.now, input.horizon, item));
      OccurrenceRowsAreExact(input.now, settled, item, Considered(input.now, input.horizon, item));
      var o :| o in Considered(input.now, input.horizon, item) && e in OccurrenceRow(input.now, settled, item, o);
      OwedHasItsRow(input, item, o, e);
    }
  }

  /** Of some dates, those that have a row. */
  ghost function WithRows(now: Instant, settled: Settled, item: Item, dates: seq<Date>): set<Date> {
    set o | o in dates && OccurrenceRow(now, settled, item, o) != []
  }

  lemma OneMoreWithRow(now: Instant, settled: Settled, item: Item, dates: seq<Date>, o: Date)
    requires o !in dates
    ensures WithRows(now, settled, item, dates + [o]) ==
            WithRows(now, settled, item, dates) + if OccurrenceRow(now, settled, item, o) != [] then {o} else {}
    ensures o !in WithRows(now, settled, item, dates)
  {
    hide OccurrenceRow;
  }

  lemma NoDatesNoRows(now: Instant, settled: Settled, item: Item)
    ensures OccurrenceRows(now, settled, item, []) == [] && WithRows(now, settled, item, []) == {}
  {
  }

  lemma AtMostOneRow(now: Instant, settled: Settled, item: Item, o: Date)
    ensures |OccurrenceRow(now, settled, item, o)| <= 1
  {
    hide Midnight;
  }

  lemma {:induction false} OneRowEach(now: Instant, settled: Settled, item: Item, dates: seq<Date>)
    requires forall i, j :: 0 <= i < j < |dates| ==> dates[i] < dates[j]
    ensures |OccurrenceRows(now, settled, item, dates)| == |WithRows(now, settled, item, dates)|
  {
    hide OccurrenceRow, OccurrenceRows, WithRows;
    if dates == [] {
      NoDatesNoRows(now, settled, item);
    } else {
      var n := |dates| - 1;
      OneMoreOccurrence(now, settled, item, dates, n);
      assert dates[..n + 1] == dates;
      OneRowEach(now, settled, item, dates[..n]);
      assert dates == dates[..n] + [dates[n]] && dates[n] !in dates[..n];
      OneMoreWithRow(now, settled, item, dates[..n], dates[n]);
      AtMostOneRow(now, settled, item, dates[n]);
    }
  }

  lemma OwedDatesHaveRows(input: TimelineInput, item: Item)
    requires item in input.items
    ensures DatesOwed(input, item) ==
            WithRows(input.now, SettledOf(input), item, Considered(input.now, input.horizon, item))
  {
    hide Considered, IsOccurrence, AddMonthsClampedDate, DayOf, Midnight;
    forall o: Date
      ensures o in DatesOwed(input, item) <==>
              o in Considered(input.now, input.horizon, item)
              && OccurrenceRow(input.now, SettledOf(input), item, o) != []
    {
      ConsideredIsExact(input.now, input.horizon, item, o);
    }
  }

  lemma {:induction false} EachDateIsOwedOnce(input: TimelineInput, items: seq<Item>)
    requires forall item :: item in items ==> item in input.items
    ensures |ItemRows(input.now, input.horizon, SettledOf(input), items)| == NumberOwed(input, items)
  {
    hide OccurrenceRows, Considered, DatesOwed, WithRows;
    if items != [] {
      var n := |items| - 1;
      var dates := Considered(input.now, input.horizon, items[n]);
      assert forall item :: item in items[..n] ==> item in items;
      EachDateIsOwedOnce(input, items[..n]);
      OwedDatesHaveRows(input, items[n]);
      ConsideredAscend(input.now, input.horizon, items[n]);
      OneRowEach(input.now, SettledOf(input), items[n], dates);
    }
  }

  lemma {:induction false} EachCardOwesOnce(input: TimelineInput, cards: seq<CardObligation>)
    requires forall card :: card in cards ==> card in input.cards
    ensures |CardRows(input.now, input.horizon, cards)| == NumberOwing(input, cards)
  {
    hide CardRow, CardOwes;
    if cards != [] {
      var n := |cards| - 1;
      assert forall card :: card in cards[..n] ==> card in cards;
      EachCardOwesOnce(input, cards[..n]);
      CardOwesOneRow(input, cards[n]);
    }
  }

  lemma CardOwesOneRow(input: TimelineInput, card: CardObligation)
    requires card in input.cards
    ensures |CardRow(input.now, input.horizon, card)| == if exists amount :: CardOwes(input, card, amount) then 1 else 0
  {
    var rows := CardRow(input.now, input.horizon, card);
    if rows != [] {
      assert CardOwes(input, card, rows[0].amount);
    }
  }

  lemma EachIsOwedOnce(input: TimelineInput)
    ensures |Rows(input)| == NumberOwing(input, input.cards) + NumberOwed(input, input.items)
  {
    hide CardRows, ItemRows;
    EachCardOwesOnce(input, input.cards);
    EachDateIsOwedOnce(input, input.items);
  }

  lemma ConsideredAscend(now: Instant, horizon: Instant, item: Item)
    ensures var s := Considered(now, horizon, item); forall i, j :: 0 <= i < j < |s| ==> s[i] < s[j]
  {
    var w := OccurrenceWindow(now, horizon);
    BetweenIsExact(item, CeilDay(OneCadenceBefore(item, w.0)), DayOf(w.1));
  }

  // ------------------------------------------------------ what the rows are

  predicate UsableAmounts(items: seq<Item>) {
    forall i :: 0 <= i < |items| && items[i].amount.Some? ==> items[i].amount.value >= 0.0
  }

  /** Every row is a non-negative magnitude dated between the run and the horizon. */
  ghost predicate WithinRun(events: seq<Event>, now: Instant, horizon: Instant) {
    forall i :: 0 <= i < |events| ==> events[i].amount >= 0.0 && now <= events[i].date <= horizon
  }

  lemma {:induction false} CardRowsAreWithinRun(now: Instant, horizon: Instant, cards: seq<CardObligation>)
    requires now <= horizon
    ensures WithinRun(CardRows(now, horizon, cards), now, horizon)
  {
    if cards != [] {
      CardRowsAreWithinRun(now, horizon, cards[..|cards| - 1]);
    }
  }

  lemma {:induction false} OccurrenceRowsAreWithinRun(now: Instant, horizon: Instant, settled: Settled, item: Item,
                                                      occurrences: seq<Date>)
    requires now <= horizon && UsableAmounts([item])
    requires forall i :: 0 <= i < |occurrences| ==> Midnight(occurrences[i]) <= horizon
    ensures WithinRun(OccurrenceRows(now, settled, item, occurrences), now, horizon)
  {
    hide Midnight;
    if occurrences != [] {
      OccurrenceRowsAreWithinRun(now, horizon, settled, item, occurrences[..|occurrences| - 1]);
      assert [item][0].amount.Some? ==> item.amount.value >= 0.0;
    }
  }

  lemma ConsideredDates(now: Instant, horizon: Instant, item: Item, o: Date)
    requires o in Considered(now, horizon, item)
    ensures IsOccurrence(item, o) && o < DayOf(horizon) && Midnight(o) <= horizon
  {
    hide IsOccurrence, OneCadenceBefore;
    var w := OccurrenceWindow(now, horizon);
    BetweenIsExact(item, CeilDay(OneCadenceBefore(item, w.0)), DayOf(w.1));
  }

  lemma {:induction false} ItemRowsAreWithinRun(now: Instant, horizon: Instant, settled: Settled, items: seq<Item>)
    requires now <= horizon && UsableAmounts(items)
    ensures WithinRun(ItemRows(now, horizon, settled, items), now, horizon)
  {
    hide Considered, Midnight;
    if items != [] {
      var n := |items| - 1;
      ItemRowsAreWithinRun(now, horizon, settled, items[..n]);
      forall i | 0 <= i < |Considered(now, horizon, items[n])|
        ensures Midnight(Considered(now, horizon, items[n])[i]) <= horizon
      {
        ConsideredDates(now, horizon, items[n], Considered(now, horizon, items[n])[i]);
      }
      OccurrenceRowsAreWithinRun(now, horizon, settled, items[n], Considered(now, horizon, items[n]));
    }
  }

  /** Whatever the banks report, the timeline holds no negative row and none outside the run's month. */
  lemma RowsAreWithinRun(input: TimelineInput)
    requires input.now <= input.horizon && UsableAmounts(input.items)
    ensures WithinRun(Rows(input), input.now, input.horizon)
    ensures NonNegative(Rows(input))
  {
    CardRowsAreWithinRun(input.now, input.horizon, input.cards);
    ItemRowsAreWithinRun(input.now, input.horizon, SettledOf(input), input.items);
  }
}
