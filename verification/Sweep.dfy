/**
 The recommendation itself (src/internal/sweep/sweep.go, compute and neighbors;
 src/internal/sweep/service.go, Compute and deriveAccounts).
 */
module Sweep {
  import opened Common
  import opened Calendar
  import opened DateText
  import opened Text
  import opened Schedule
  import opened Windows
  import opened StableSort
  import opened CashFlow
  import opened ClearingDays
  import opened Timeline
  import opened Degradation
  import opened Paydays
  import opened MatchStore
  import opened ScheduleService

  // -------------------------------------------------------------- accounts

  /** What the run reads of one account: balance is None when the bank never reported one. */
  datatype Account = Account(countsAsSavings: bool, balance: Option<real>, lastSyncedAt: Option<Instant>,
                             name: string, statement: Option<ReportedStatement>, mode: PaymentMode, offsetDays: int)

  /** BalanceStale: never confirmed, or not for more than a day. */
  predicate BalanceStale(a: Account, now: Instant) {
    a.lastSyncedAt.None? || now - a.lastSyncedAt.value > Midnight(1)
  }

  predicate Reliable(a: Account, now: Instant) {
    a.balance.Some? && !BalanceStale(a, now)
  }

  datatype ComputeInput = ComputeInput(
    checking: Option<real>, checkingUndetermined: bool, checkingBalanceUnknown: bool, checkingStale: bool,
    savings: Option<real>, cards: seq<CardAccount>, cardBalanceUnknown: bool, cardBalanceStale: bool,
    items: seq<Item>, settled: Option<Settled>, margin: real)

  /** The accounts of one kind, in order: checking is the cash that does not count as savings. */
  function OfKind(accounts: seq<Account>, savings: bool): seq<Account> {
    if accounts == [] then []
    else OfKind(accounts[..|accounts| - 1], savings)
         + (if accounts[|accounts| - 1].countsAsSavings == savings then [accounts[|accounts| - 1]] else [])
  }

  /** The cards that can be stood behind, in order. */
  function ReliableCards(credit: seq<Account>, now: Instant): seq<CardAccount> {
    if credit == [] then []
    else
      var c := credit[|credit| - 1];
      ReliableCards(credit[..|credit| - 1], now)
      + (if Reliable(c, now) then [CardAccount(c.name, c.balance.value, c.statement, c.mode, c.offsetDays)] else [])
  }

  /** Where the accounts of one kind stand. */
  ghost function Positions(accounts: seq<Account>, savings: bool): set<int> {
    set i | 0 <= i < |accounts| && accounts[i].countsAsSavings == savings
  }

  lemma {:induction false} OfKindIsExact(accounts: seq<Account>, savings: bool)
    ensures |OfKind(accounts, savings)| == |Positions(accounts, savings)|
    ensures forall a :: a in OfKind(accounts, savings) <==> a in accounts && a.countsAsSavings == savings
  {
    if accounts != [] {
      hide Positions;
      var n := |accounts| - 1;
      OfKindIsExact(accounts[..n], savings);
      assert accounts == accounts[..n] + [accounts[n]];
      OneMorePosition(accounts, savings);
    }
  }

  lemma OneMorePosition(accounts: seq<Account>, savings: bool)
    requires accounts != []
    ensures var n := |accounts| - 1;
            && n !in Positions(accounts[..n], savings)
            && Positions(accounts, savings) ==
               Positions(accounts[..n], savings) + if accounts[n].countsAsSavings == savings then {n} else {}
  {
  }

  lemma OnlyOneOfItsKind(accounts: seq<Account>, savings: bool)
    ensures |OfKind(accounts, savings)| == |Positions(accounts, savings)|
    ensures forall i :: i in Positions(accounts, savings) && |Positions(accounts, savings)| == 1 ==>
              OfKind(accounts, savings)[0] == accounts[i]
  {
    hide OfKind;
    OfKindIsExact(accounts, savings);
    forall i | i in Positions(accounts, savings) && |Positions(accounts, savings)| == 1
      ensures OfKind(accounts, savings)[0] == accounts[i]
    {
      assert accounts[i] in OfKind(accounts, savings);
    }
  }

  lemma {:induction false} ReliableCardsAreExact(credit: seq<Account>, now: Instant)
    ensures |ReliableCards(credit, now)| == |set i | 0 <= i < |credit| && Reliable(credit[i], now)|
    ensures forall c :: c in ReliableCards(credit, now) <==>
              exists a :: a in credit && Reliable(a, now)
                          && c == CardAccount(a.name, a.balance.value, a.statement, a.mode, a.offsetDays)
  {
    hide Reliable;
    if credit != [] {
      var n := |credit| - 1;
      ReliableCardsAreExact(credit[..n], now);
      assert credit == credit[..n] + [credit[n]];
      OneMoreReliable(credit, now);
    }
  }

  lemma OneMoreReliable(credit: seq<Account>, now: Instant)
    requires credit != []
    ensures var n := |credit| - 1;
            |set i | 0 <= i < |credit| && Reliable(credit[i], now)| ==
            |set i | 0 <= i < n && Reliable(credit[..n][i], now)| + if Reliable(credit[n], now) then 1 else 0
  {
    hide Reliable;
    var n := |credit| - 1;
    var before := set i | 0 <= i < n && Reliable(credit[..n][i], now);
    assert n !in before;
    assert (set i | 0 <= i < |credit| && Reliable(credit[i], now)) ==
           before + if Reliable(credit[n], now) then {n} else {};
  }

  lemma OneMoreOfItsKind(accounts: seq<Account>, i: nat)
    requires i < |accounts|
    ensures forall savings :: OfKind(accounts[..i + 1], savings) ==
                              OfKind(accounts[..i], savings)
                              + if accounts[i].countsAsSavings == savings then [accounts[i]] else []
  {
    assert accounts[..i + 1][..i] == accounts[..i];
  }

  lemma NoneOfAKind()
    ensures forall savings :: OfKind([], savings) == []
  {
  }

  /** The balance was never confirmed, or last more than a day ago. */
  predicate IsOutOfDate(a: Account, now: Instant) {
    a.lastSyncedAt == None || now > a.lastSyncedAt.value + DAY
  }

  /** What is read of the cash: the one account of a kind, if it is the only one and its balance is known and recent. */
  ghost predicate CashIsDerived(input: ComputeInput, cash: seq<Account>, now: Instant) {
    var (checking, savings) := (Positions(cash, false), Positions(cash, true));
    && (input.checkingUndetermined <==> |checking| != 1)
    && (|checking| != 1 ==> !input.checkingBalanceUnknown && !input.checkingStale && input.checking == None)
    && (forall i :: i in checking && |checking| == 1 ==>
          && (input.checkingBalanceUnknown <==> cash[i].balance == None)
          && (input.checkingStale <==> cash[i].balance != None && IsOutOfDate(cash[i], now))
          && input.checking == if IsOutOfDate(cash[i], now) then None else cash[i].balance)
    && (|savings| != 1 ==> input.savings == None)
    && forall i :: i in savings && |savings| == 1 ==>
         input.savings == if IsOutOfDate(cash[i], now) then None else cash[i].balance
  }

  /** What is read of the cards: each with a known and recent balance, and whether some have none, or an old one. */
  ghost predicate CardsAreDerived(input: ComputeInput, credit: seq<Account>, now: Instant) {
    && (input.cardBalanceUnknown <==> exists i :: 0 <= i < |credit| && credit[i].balance == None)
    && (input.cardBalanceStale <==>
        exists i :: 0 <= i < |credit| && credit[i].balance != None && IsOutOfDate(credit[i], now))
    && |input.cards| == |set i | 0 <= i < |credit| && credit[i].balance != None && !IsOutOfDate(credit[i], now)|
    && forall c :: c in input.cards <==>
         exists a :: a in credit && a.balance != None && !IsOutOfDate(a, now)
                     && c == CardAccount(a.name, a.balance.value, a.statement, a.mode, a.offsetDays)
  }

  lemma OutOfDateIsStale(a: Account, now: Instant)
    ensures IsOutOfDate(a, now) <==> BalanceStale(a, now)
  {
  }

  lemma CardsDerived(input: ComputeInput, credit: seq<Account>, now: Instant)
    requires input.cards == ReliableCards(credit, now)
    requires input.cardBalanceUnknown <==> exists i :: 0 <= i < |credit| && credit[i].balance.None?
    requires input.cardBalanceStale <==>
             exists i :: 0 <= i < |credit| && credit[i].balance.Some? && BalanceStale(credit[i], now)
    ensures CardsAreDerived(input, credit, now)
  {
    hide IsOutOfDate, BalanceStale, ReliableCards;
    ReliableCardsAreExact(credit, now);
    forall a: Account ensures IsOutOfDate(a, now) <==> BalanceStale(a, now) {
      OutOfDateIsStale(a, now);
    }
    assert (set i | 0 <= i < |credit| && Reliable(credit[i], now)) ==
           set i | 0 <= i < |credit| && credit[i].balance != None && !IsOutOfDate(credit[i], now);
  }

  lemma DerivedFromTheOnlyOnes(input: ComputeInput, cash: seq<Account>, now: Instant)
    requires var checking := OfKind(cash, false);
             && (input.checkingUndetermined <==> |checking| != 1)
             && (input.checkingBalanceUnknown <==> |checking| == 1 && checking[0].balance.None?)
             && (input.checkingStale <==>
                 |checking| == 1 && checking[0].balance.Some? && BalanceStale(checking[0], now))
             && input.checking == if |checking| == 1 && Reliable(checking[0], now) then checking[0].balance else None
    requires var savings := OfKind(cash, true);
             input.savings == if |savings| == 1 && Reliable(savings[0], now) then savings[0].balance else None
    ensures CashIsDerived(input, cash, now)
  {
    hide OfKind, Positions, IsOutOfDate, BalanceStale;
    OnlyOneOfItsKind(cash, false);
    OnlyOneOfItsKind(cash, true);
    PositionsAreWithin(cash);
    forall i | 0 <= i < |cash| ensures IsOutOfDate(cash[i], now) <==> BalanceStale(cash[i], now) {
      OutOfDateIsStale(cash[i], now);
    }
  }

  lemma PositionsAreWithin(accounts: seq<Account>)
    ensures forall savings, i :: i in Positions(accounts, savings) ==> 0 <= i < |accounts|
  {
  }

  /** deriveAccounts: exactly one checking account, each of its three failures told apart; every card. */
  method DeriveAccounts(cash: seq<Account>, credit: seq<Account>, now: Instant) returns (input: ComputeInput)
    ensures var checking := OfKind(cash, false);
            && (input.checkingUndetermined <==> |checking| != 1)
            && (input.checkingBalanceUnknown <==> |checking| == 1 && checking[0].balance.None?)
            && (input.checkingStale <==> |checking| == 1 && checking[0].balance.Some? && BalanceStale(checking[0], now))
            && input.checking == (if |checking| == 1 && Reliable(checking[0], now) then checking[0].balance else None)
    ensures var savings := OfKind(cash, true);
            input.savings == (if |savings| == 1 && Reliable(savings[0], now) then savings[0].balance else None)
    ensures input.cards == ReliableCards(credit, now)
    ensures input.cardBalanceUnknown <==> exists i :: 0 <= i < |credit| && credit[i].balance.None?
    ensures input.cardBalanceStale <==>
            exists i :: 0 <= i < |credit| && credit[i].balance.Some? && BalanceStale(credit[i], now)
    ensures CashIsDerived(input, cash, now) && CardsAreDerived(input, credit, now)
  {
    hide OfKind, Positions, ReliableCards, CashIsDerived, CardsAreDerived;
    input := ComputeInput(None, false, false, false, None, [], false, false, [], None, 0.0);
    var checking: seq<Account>, savings: seq<Account> := [], [];
    NoneOfAKind();
    for i := 0 to |cash|
      invariant checking == OfKind(cash[..i], false) && savings == OfKind(cash[..i], true)
    {
      OneMoreOfItsKind(cash, i);
      if cash[i].countsAsSavings {
        savings := savings + [cash[i]];
      } else {
        checking := checking + [cash[i]];
      }
    }
    assert cash[..|cash|] == cash;
    if |checking| != 1 {
      input := input.(checkingUndetermined := true);
    } else if checking[0].balance.None? {
      input := input.(checkingBalanceUnknown := true);
    } else if BalanceStale(checking[0], now) {
      input := input.(checkingStale := true);
    } else {
      input := input.(checking := checking[0].balance);
    }
    if |savings| == 1 && savings[0].balance.Some? && !BalanceStale(savings[0], now) {
      input := input.(savings := savings[0].balance);
    }
    var cards, unknown, stale := DeriveCards(credit, now);
    input := input.(cards := cards, cardBalanceUnknown := unknown, cardBalanceStale := stale);
    DerivedFromTheOnlyOnes(input, cash, now);
    CardsDerived(input, credit, now);
  }

  /** Every card we can stand behind, and whether any had no balance, or a stale one. */
  method DeriveCards(credit: seq<Account>, now: Instant) returns (cards: seq<CardAccount>, unknown: bool, stale: bool)
    ensures cards == ReliableCards(credit, now)
    ensures unknown <==> exists i :: 0 <= i < |credit| && credit[i].balance.None?
    ensures stale <==> exists i :: 0 <= i < |credit| && credit[i].balance.Some? && BalanceStale(credit[i], now)
  {
    cards, unknown, stale := [], false, false;
    for i := 0 to |credit|
      invariant cards == ReliableCards(credit[..i], now)
      invariant unknown <==> exists j :: 0 <= j < i && credit[j].balance.None?
      invariant stale <==> exists j :: 0 <= j < i && credit[j].balance.Some? && BalanceStale(credit[j], now)
    {
      assert credit[..i + 1][..i] == credit[..i];
      var c := credit[i];
      if c.balance.None? {
        unknown := true;
      } else if BalanceStale(c, now) {
        stale := true;
      } else {
        cards := cards + [CardAccount(c.name, c.balance.value, c.statement, c.mode, c.offsetDays)];
      }
    }
    assert credit[..|credit|] == credit;
  }

  // --------------------------------------------------------------- compute

  datatype Reason =
    | CheckingUndetermined | CheckingBalanceUnknown | CheckingStale | CardBalanceUnknown | CardBalanceStale

  datatype SweepDirection = CheckingToSavings | SavingsToChecking | NoTransfer

  datatype Recommendation =
    | Numeric(currentChecking: real, currentSavings: real, savingsUnknown: bool, timeline: seq<Event>,
              requiredChecking: real, margin: real, suggestedSweep: real, direction: SweepDirection,
              computedAt: Instant)
    | NeedsAttention(reasons: seq<Reason>, computedAt: Instant)

  predicate Applies(r: Reason, input: ComputeInput) {
    match r
    case CheckingUndetermined => input.checkingUndetermined
    case CheckingBalanceUnknown => input.checkingBalanceUnknown
    case CheckingStale => input.checkingStale
    case CardBalanceUnknown => input.cardBalanceUnknown
    case CardBalanceStale => input.cardBalanceStale
  }

  predicate Blocked(input: ComputeInput) {
    || input.checkingUndetermined || input.checkingBalanceUnknown || input.checkingStale
    || input.cardBalanceUnknown || input.cardBalanceStale
  }

  function TimelineOf(input: ComputeInput, now: Instant): TimelineInput {
    TimelineInput(now, HorizonFrom(now), Obligations(input.cards), input.items, input.settled)
  }

  /** Where a reason stands in the list. */
  function Place(r: Reason): nat {
    match r
    case CheckingUndetermined => 0
    case CheckingBalanceUnknown => 1
    case CheckingStale => 2
    case CardBalanceUnknown => 3
    case CardBalanceStale => 4
  }

  /** The reasons that apply, all of them, in their one order. */
  ghost predicate AreReasons(reasons: seq<Reason>, input: ComputeInput) {
    && (forall r :: r in reasons <==> Applies(r, input))
    && forall i, j :: 0 <= i < j < |reasons| ==> Place(reasons[i]) < Place(reasons[j])
  }

  /** Every applicable reason is listed, never just the first, and each once. */
  method ReasonsFor(input: ComputeInput) returns (reasons: seq<Reason>)
    ensures reasons == [] <==> !Blocked(input)
    ensures AreReasons(reasons, input)
    ensures CheckingUndetermined in reasons <==> input.checkingUndetermined
    ensures CheckingBalanceUnknown in reasons <==> input.checkingBalanceUnknown
    ensures CheckingStale in reasons <==> input.checkingStale
    ensures CardBalanceUnknown in reasons <==> input.cardBalanceUnknown
    ensures CardBalanceStale in reasons <==> input.cardBalanceStale
  {
    hide AreReasonsBelow;
    reasons := [];
    NoReasonsYet(input);
    OneMoreReason(reasons, input, CheckingUndetermined);
    if input.checkingUndetermined {
      reasons := reasons + [CheckingUndetermined];
    }
    OneMoreReason(reasons, input, CheckingBalanceUnknown);
    if input.checkingBalanceUnknown {
      reasons := reasons + [CheckingBalanceUnknown];
    }
    OneMoreReason(reasons, input, CheckingStale);
    if input.checkingStale {
      reasons := reasons + [CheckingStale];
    }
    OneMoreReason(reasons, input, CardBalanceUnknown);
    if input.cardBalanceUnknown {
      reasons := reasons + [CardBalanceUnknown];
    }
    OneMoreReason(reasons, input, CardBalanceStale);
    if input.cardBalanceStale {
      reasons := reasons + [CardBalanceStale];
    }
    AllReasons(reasons, input);
  }

  /** The reasons of the places before k. */
  ghost predicate AreReasonsBelow(reasons: seq<Reason>, input: ComputeInput, k: nat) {
    && (forall r :: r in reasons <==> Applies(r, input) && Place(r) < k)
    && forall i, j :: 0 <= i < j < |reasons| ==> Place(reasons[i]) < Place(reasons[j])
  }

  lemma NoReasonsYet(input: ComputeInput)
    ensures AreReasonsBelow([], input, 0)
  {
  }

  lemma OneMoreReason(reasons: seq<Reason>, input: ComputeInput, r: Reason)
    requires AreReasonsBelow(reasons, input, Place(r))
    ensures AreReasonsBelow(if Applies(r, input) then reasons + [r] else reasons, input, Place(r) + 1)
  {
    hide Applies;
    assert forall q: Reason :: Place(q) == Place(r) ==> q == r;
  }

  lemma AllReasons(reasons: seq<Reason>, input: ComputeInput)
    requires AreReasonsBelow(reasons, input, 5)
    ensures AreReasons(reasons, input) && (reasons == [] <==> !Blocked(input))
  {
    if reasons == [] {
      assert forall r :: !Applies(r, input);
      assert !Applies(CheckingUndetermined, input) && !Applies(CheckingBalanceUnknown, input);
      assert !Applies(CheckingStale, input) && !Applies(CardBalanceUnknown, input) && !Applies(CardBalanceStale, input);
    } else {
      assert Applies(reasons[0], input);
    }
  }

  /** compute: every reason that applies, or the figure, its timeline, and what to move. */
  method Compute(input: ComputeInput, now: Instant) returns (rec: Recommendation)
    requires !Blocked(input) ==> input.checking.Some?
    ensures rec.computedAt == now
    ensures rec.NeedsAttention? <==> Blocked(input)
    ensures rec.NeedsAttention? ==>
              && AreReasons(rec.reasons, input)
              && (CheckingUndetermined in rec.reasons <==> input.checkingUndetermined)
              && (CheckingBalanceUnknown in rec.reasons <==> input.checkingBalanceUnknown)
              && (CheckingStale in rec.reasons <==> input.checkingStale)
              && (CardBalanceUnknown in rec.reasons <==> input.cardBalanceUnknown)
              && (CardBalanceStale in rec.reasons <==> input.cardBalanceStale)
    ensures rec.Numeric? ==>
              && rec.requiredChecking == Required(Rows(TimelineOf(input, now)))
              && rec.currentChecking == input.checking.value && rec.margin == input.margin
              && rec.currentChecking - rec.suggestedSweep == rec.requiredChecking + rec.margin
              && (rec.direction.CheckingToSavings? <==> rec.suggestedSweep > 0.0)
              && (rec.direction.SavingsToChecking? <==> rec.suggestedSweep < 0.0)
              && rec.savingsUnknown == input.savings.None?
              && rec.currentSavings == (if input.savings.Some? then input.savings.value else 0.0)
    ensures rec.Numeric? ==>
              var s := Sorted(Rows(TimelineOf(input, now)), SortKey);
              && |rec.timeline| == |s|
              && forall i :: 0 <= i < |s| ==>
                   rec.timeline[i] == s[i].(runningTotal := RunningTotal(s, i), peak := i == PeakRow(s))
    ensures rec.Numeric? ==> ShowsWhatIsOwed(rec.timeline, TimelineOf(input, now))
  {
    hide Rows, Sorted, Peak, PeakRow, RunningTotal, Total, HorizonFrom, Blocked, Applies, AreReasons, ShowsWhatIsOwed;
    hide CoversWhatIsOwed;
    var reasons := ReasonsFor(input);
    if |reasons| > 0 {
      return NeedsAttention(reasons, now);
    }
    var events := BuildTimeline(TimelineOf(input, now));
    var required, timeline := Evaluate(events);
    SortingKeepsLength(events);
    var suggested := input.checking.value - required - input.margin;
    var direction := if suggested > 0.0 then CheckingToSavings
                     else if suggested < 0.0 then SavingsToChecking else NoTransfer;
    rec := Numeric(input.checking.value, if input.savings.None? then 0.0 else input.savings.value,
                   input.savings.None?, timeline, required, input.margin, suggested, direction, now);
    SortedShowsWhatIsOwed(timeline, TimelineOf(input, now));
  }

  lemma SortingKeepsLength(events: seq<Event>)
    ensures |Sorted(events, SortKey)| == |events|
  {
  }

  /** Moving the amount leaves every clearing order of the events at or above the margin. */
  ghost predicate SafeToMove(events: seq<Event>, checking: real, margin: real, moved: real) {
    forall p :: ClearingOrder(p, events) ==> StaysAtLeast(margin, checking - moved, p)
  }

  /** So it does every order within the days. */
  ghost predicate SafeToMoveByTheDay(day: Reading, events: seq<Event>, checking: real, margin: real, moved: real) {
    forall p :: DayOrder(day, p, events) ==> StaysAtLeast(margin, checking - moved, p)
  }

  function KnownTo(input: ComputeInput): Knowledge {
    Knowledge(input.cards, input.items, if input.settled.None? then NothingSettled() else input.settled.value)
  }

  /**
   What the suggestion is worth: moving any amount leaves every clearing order of the month's
   events at or above the safety margin exactly when it is no more than the suggested sweep.
   */
  lemma SuggestedSweepIsTheMostThatIsSafe(input: ComputeInput, now: Instant, checking: real, moved: real)
    requires UsableAmounts(input.items)
    ensures var events := Rows(TimelineOf(input, now));
            SafeToMove(events, checking, input.margin, moved) <==> moved <= checking - Required(events) - input.margin
  {
    hide Rows, Required, StaysAtLeast, ClearingOrder, HorizonFrom, UsableAmounts, WithinRun, NonNegative;
    HorizonIsAhead(now);
    RowsAreWithinRun(TimelineOf(input, now));
    LeastSafeOpening(Rows(TimelineOf(input, now)), checking - moved, input.margin);
  }

  /**
   The same when any order within a day is possible: the figure by the day decides, and it is the
   figure of the recommendation whenever no card falls behind a coming inflow.
   */
  lemma SuggestedSweepIsSafeByTheDay(day: Reading, input: ComputeInput, now: Instant, checking: real, moved: real)
    requires IsReading(day) && UsableAmounts(input.items)
    ensures var events := Rows(TimelineOf(input, now));
            && Required(events) <= DayRequired(day, events)
            && (SafeToMoveByTheDay(day, events, checking, input.margin, moved) <==>
                  moved <= checking - DayRequired(day, events) - input.margin)
            && (NoCardFallsBehind(day, now, KnownTo(input)) ==> DayRequired(day, events) == Required(events))
  {
    hide Rows, Required, DayRequired, StaysAtLeast, DayOrder, HorizonFrom, UsableAmounts, IsReading, NoCardFallsBehind;
    hide WellPlaced, InflowsAtMidnight, NonNegative;
    var events := Rows(TimelineOf(input, now));
    SameRowsKnown(input, now);
    OnlyCardsFallBehind(day, now, KnownTo(input));
    DayFigureIsNoLower(day, events);
    LeastSafeOpeningByTheDay(day, events, checking - moved, input.margin);
    if NoCardFallsBehind(day, now, KnownTo(input)) {
      WellPlacedFiguresAgree(day, events);
    }
  }

  lemma SameRowsKnown(input: ComputeInput, now: Instant)
    ensures Rows(TimelineOf(input, now)) == Rows(InputOf(KnownTo(input), now))
  {
    hide CardRows, ItemRows, HorizonFrom, Obligations;
  }

  // ------------------------------------------------ what is due at the run

  /** The outflows that stand at the run instant itself. */
  function DueNow(events: seq<Event>, now: Instant): real {
    if events == [] then 0.0
    else
      var e := events[|events| - 1];
      DueNow(events[..|events| - 1], now) + (if e.date == now && e.direction.EventOut? then e.amount else 0.0)
  }

  lemma {:induction false} NothingOffsetsDueNow(events: seq<Event>, now: Instant)
    requires forall i :: 0 <= i < |events| ==> now <= events[i].date
    ensures Exposure(events, now) == DueNow(events, now)
  {
    if events != [] {
      NothingOffsetsDueNow(events[..|events| - 1], now);
    }
  }

  /** Whatever income is on its way, everything already due is reserved in full. */
  lemma DueNowIsReservedInFull(input: ComputeInput, now: Instant)
    requires UsableAmounts(input.items)
    ensures DueNow(Rows(TimelineOf(input, now)), now) <= Required(Rows(TimelineOf(input, now)))
  {
    hide Rows, Required, Exposure, DueNow;
    HorizonIsAhead(now);
    var events := Rows(TimelineOf(input, now));
    RowsAreWithinRun(TimelineOf(input, now));
    NothingOffsetsDueNow(events, now);
    PeakIsWorstExposure(events);
  }

  /** The outflows an item owes that have fallen due. */
  ghost function Overdue(input: TimelineInput, item: Item): real {
    if item.amount.None? || item.direction.In? then 0.0
    else item.amount.value * |set o | o in DatesOwed(input, item) && Midnight(o) <= input.now| as real
  }

  ghost function OverdueTotal(input: TimelineInput, items: seq<Item>): real {
    if items == [] then 0.0 else OverdueTotal(input, items[..|items| - 1]) + Overdue(input, items[|items| - 1])
  }

  /** Of some dates, those with a row that have come. */
  ghost function ComeWithRows(now: Instant, settled: Settled, item: Item, dates: seq<Date>): set<Date> {
    set o | o in WithRows(now, settled, item, dates) && Midnight(o) <= now
  }

  lemma OneMoreCome(now: Instant, settled: Settled, item: Item, dates: seq<Date>, o: Date)
    requires o !in dates
    ensures ComeWithRows(now, settled, item, dates + [o]) ==
            ComeWithRows(now, settled, item, dates)
            + if OccurrenceRow(now, settled, item, o) != [] && Midnight(o) <= now then {o} else {}
    ensures o !in ComeWithRows(now, settled, item, dates)
  {
    hide OccurrenceRow, Midnight, WithRows;
    OneMoreWithRow(now, settled, item, dates, o);
  }

  lemma ComeWeighs(now: Instant, settled: Settled, item: Item, o: Date)
    ensures var come := OccurrenceRow(now, settled, item, o) != [] && Midnight(o) <= now;
            OccurrenceWeight(now, settled, item, o, now) ==
            if item.amount.None? || item.direction.In? || !come then 0.0 else item.amount.value
  {
    hide Midnight;
  }

  lemma {:induction false} WeightNow(now: Instant, settled: Settled, item: Item, dates: seq<Date>)
    requires forall i, j :: 0 <= i < j < |dates| ==> dates[i] < dates[j]
    ensures Exposure(OccurrenceRows(now, settled, item, dates), now) ==
            if item.amount.None? || item.direction.In? then 0.0
            else item.amount.value * |ComeWithRows(now, settled, item, dates)| as real
  {
    hide OccurrenceRow, OccurrenceRows, OccurrenceWeight, ComeWithRows, Midnight, Exposure;
    if dates == [] {
      NoDatesNoWeight(now, settled, item);
    } else {
      var n := |dates| - 1;
      assert dates == dates[..n] + [dates[n]] && dates[n] !in dates[..n];
      WeightNow(now, settled, item, dates[..n]);
      LastOccurrenceWeighs(now, settled, item, dates, now);
      OneMoreCome(now, settled, item, dates[..n], dates[n]);
      ComeWeighs(now, settled, item, dates[n]);
    }
  }

  lemma NoDatesNoWeight(now: Instant, settled: Settled, item: Item)
    ensures Exposure(OccurrenceRows(now, settled, item, []), now) == 0.0
    ensures ComeWithRows(now, settled, item, []) == {}
  {
  }

  lemma {:induction false} ItemsWeighNow(input: TimelineInput, items: seq<Item>)
    requires forall item :: item in items ==> item in input.items
    ensures Exposure(ItemRows(input.now, input.horizon, SettledOf(input), items), input.now) ==
            OverdueTotal(input, items)
  {
    hide OccurrenceRows, Considered, DatesOwed, WithRows, Midnight, Exposure, ItemRows, SettledOf;
    if items == [] {
      NoItemsNoRows(input.now, input.horizon, SettledOf(input), SettledOf(input));
      ExposureOfRow("", 0, 0.0, input.now);
    } else {
      var n := |items| - 1;
      assert forall item :: item in items[..n] ==> item in items;
      ItemsWeighNow(input, items[..n]);
      LastItemWeighs(input.now, input.horizon, SettledOf(input), items, input.now);
      OwedDatesHaveRows(input, items[n]);
      ConsideredAscend(input.now, input.horizon, items[n]);
      WeightNow(input.now, SettledOf(input), items[n], Considered(input.now, input.horizon, items[n]));
    }
  }

  /** The required figure covers every unsettled outflow that has fallen due since one cadence ago. */
  lemma OverdueIsReserved(input: TimelineInput)
    requires input.now <= input.horizon && UsableAmounts(input.items)
    ensures Required(Rows(input)) >= OverdueTotal(input, input.items)
  {
    hide CardRows, ItemRows, Exposure, Required, OverdueTotal, SettledOf, UsableAmounts;
    RowsAreWithinRun(input);
    PeakIsWorstExposure(Rows(input));
    ItemsWeighNow(input, input.items);
    CardRowsAreWithinRun(input.now, input.horizon, input.cards);
    var cards := CardRows(input.now, input.horizon, input.cards);
    CardRowsAreOutflows(input.now, input.horizon, input.cards);
    LaterPartWeighsNothingBelowZero(cards, input.now);
    ExposureOfConcat(cards, ItemRows(input.now, input.horizon, SettledOf(input), input.items), input.now);
  }

  lemma {:induction false} CardRowsAreOutflows(now: Instant, horizon: Instant, cards: seq<CardObligation>)
    ensures forall e :: e in CardRows(now, horizon, cards) ==> e.direction.EventOut?
  {
    if cards != [] {
      CardRowsAreOutflows(now, horizon, cards[..|cards| - 1]);
    }
  }

  // ------------------------------------------------------ the timeline shown

  /** The rows as they were before evaluate marked them. */
  function Unmarked(timeline: seq<Event>): seq<Event> {
    seq(|timeline|, i requires 0 <= i < |timeline| => timeline[i].(runningTotal := 0.0, peak := false))
  }

  /** The timeline shown has a row for everything owed, once each, and no other. */
  ghost predicate ShowsWhatIsOwed(timeline: seq<Event>, input: TimelineInput) {
    && CoversWhatIsOwed(Unmarked(timeline), input)
    && |timeline| == NumberOwing(input, input.cards) + NumberOwed(input, input.items)
  }

  lemma SortedShowsWhatIsOwed(timeline: seq<Event>, input: TimelineInput)
    requires var s := Sorted(Rows(input), SortKey);
             && |timeline| == |s|
             && forall i :: 0 <= i < |s| ==>
                timeline[i] == s[i].(runningTotal := RunningTotal(s, i), peak := i == PeakRow(s))
    ensures ShowsWhatIsOwed(timeline, input)
  {
    hide Sorted, Rows, RunningTotal, PeakRow, CoversWhatIsOwed, NumberOwing, NumberOwed;
    var rows, s := Rows(input), Sorted(Rows(input), SortKey);
    SortedIsOrdered(rows, SortKey);
    RowsCoverWhatIsOwed(input);
    EachIsOwedOnce(input);
    RowsAreUnmarked(input);
    forall i | 0 <= i < |s| ensures Unmarked(timeline)[i] == s[i] {
      assert s[i] in multiset(rows);
    }
    assert Unmarked(timeline) == s;
    assert |multiset(s)| == |s| && |multiset(rows)| == |rows|;
    RearrangedCovers(rows, s, input);
  }

  lemma RearrangedCovers(a: seq<Event>, b: seq<Event>, input: TimelineInput)
    requires multiset(a) == multiset(b) && CoversWhatIsOwed(a, input)
    ensures CoversWhatIsOwed(b, input)
  {
    hide CardOwes, CardRowOf, RowOf, IsOccurrence, AddMonthsClampedDate, DayOf, Midnight;
    forall e ensures e in a <==> e in b {
      assert e in a <==> e in multiset(b);
    }
  }

  lemma RowsAreUnmarked(input: TimelineInput)
    ensures forall e :: e in Rows(input) ==> e.runningTotal == 0.0 && !e.peak
  {
    hide Rows, IsOwed, CardOwes;
    RowsCoverWhatIsOwed(input);
  }

  // --------------------------------------------------- the settled lookup

  /** The range Compute asks for: one clamped month back from today, through the horizon's date. */
  function LookupRange(now: Instant): (Date, Date) {
    (AddMonthsClampedDate(DayOf(now), -1), DayOf(HorizonFrom(now)))
  }

  /** Every occurrence the timeline asks about lies in that range, by its stored text. */
  lemma LookupCoversTheTimeline(now: Instant, item: Item, o: Date)
    requires o in Considered(now, HorizonFrom(now), item)
    requires FourDigitYear(LookupRange(now).0) && FourDigitYear(LookupRange(now).1)
    ensures InTextRange(o, LookupRange(now).0, LookupRange(now).1)
  {
    hide OccurrenceKey, TextAtMost, IsOccurrence, AddMonthsClampedDate, MonthOf, DayOf, OneCadenceBefore,
         OccurrenceWindow, HorizonFrom;
    var from, to := LookupRange(now).0, LookupRange(now).1;
    var w := OccurrenceWindow(now, HorizonFrom(now));
    BetweenIsExact(item, CeilDay(OneCadenceBefore(item, w.0)), DayOf(w.1));
    WindowDates(now);
    LookbackDates(item, now);
    WindowStartsToday(now);
    HorizonIsAMonthOn(now);
    OneMonthSpan(DayOf(now));
    assert from <= o <= to;
    MonthsAreOrdered(from, o);
    MonthsAreOrdered(o, to);
    KeysSortChronologically(from, o);
    KeysSortChronologically(o, to);
  }

  lemma WindowStartsToday(now: Instant)
    ensures OccurrenceWindow(now, HorizonFrom(now)).0 == StartOfDay(now)
  {
  }

  /** SettledSet.Has. */
  function Has(byItem: map<string, set<string>>): Settled {
    (id: string, o: Date) => OccurrenceKey(o) in KeysOf(byItem, id)
  }

  /** What the whole table says. */
  function SettledInTable(t: Table): Settled {
    (id: string, o: Date) => Occurrence(id, o) in t && t[Occurrence(id, o)].txn.Some?
  }

  lemma {:induction false} SameRowsForSameAnswers(now: Instant, a: Settled, b: Settled, item: Item,
                                                  occurrences: seq<Date>)
    requires forall o :: o in occurrences ==> a(item.id, o) == b(item.id, o)
    ensures OccurrenceRows(now, a, item, occurrences) == OccurrenceRows(now, b, item, occurrences)
  {
    hide Midnight;
    if occurrences != [] {
      SameRowsForSameAnswers(now, a, b, item, occurrences[..|occurrences| - 1]);
    }
  }

  lemma {:induction false} SameItemRowsForSameAnswers(now: Instant, horizon: Instant, a: Settled, b: Settled,
                                                      items: seq<Item>)
    requires forall i, o :: 0 <= i < |items| && o in Considered(now, horizon, items[i]) ==>
             a(items[i].id, o) == b(items[i].id, o)
    ensures ItemRows(now, horizon, a, items) == ItemRows(now, horizon, b, items)
  {
    hide Considered, OccurrenceRows;
    if items != [] {
      var n := |items| - 1;
      assert forall i :: 0 <= i < n ==> items[..n][i] == items[i];
      SameItemRowsForSameAnswers(now, horizon, a, b, items[..n]);
      SameRowsForSameAnswers(now, a, b, items[n], Considered(now, horizon, items[n]));
    }
  }

  /** The range query loses nothing: the timeline built from it is the one the whole table gives. */
  lemma SettledLookupLosesNothing(t: Table, byItem: map<string, set<string>>, now: Instant, input: ComputeInput)
    requires FourDigitYear(LookupRange(now).0) && FourDigitYear(LookupRange(now).1)
    requires forall id, day ::
               OccurrenceKey(day) in KeysOf(byItem, id) <==>
               Occurrence(id, day) in t && t[Occurrence(id, day)].txn.Some?
               && InTextRange(day, LookupRange(now).0, LookupRange(now).1)
    ensures Rows(TimelineOf(input.(settled := Some(Has(byItem))), now)) ==
            Rows(TimelineOf(input.(settled := Some(SettledInTable(t))), now))
  {
    hide OccurrenceKey, InTextRange, Considered, HorizonFrom, FourDigitYear, CardRows, ItemRows, LookupRange, KeysOf;
    forall i, o | 0 <= i < |input.items| && o in Considered(now, HorizonFrom(now), input.items[i])
      ensures Has(byItem)(input.items[i].id, o) == SettledInTable(t)(input.items[i].id, o)
    {
      LookupCoversTheTimeline(now, input.items[i], o);
    }
    SameItemRowsForSameAnswers(now, HorizonFrom(now), Has(byItem), SettledInTable(t), input.items);
  }

  /**
   The suggested sweep is the most that is safe to move, in every clearing order; and under every
   reading of the days by which no card falls behind a coming inflow, in every order within the days.
   */
  ghost predicate IsWorth(suggested: real, known: Knowledge, now: Instant, checking: real, margin: real) {
    var events := Rows(InputOf(known, now));
    && (forall moved: real :: SafeToMove(events, checking, margin, moved) <==> moved <= suggested)
    && forall day: Reading, moved: real :: IsReading(day) && NoCardFallsBehind(day, now, known) ==>
         (SafeToMoveByTheDay(day, events, checking, margin, moved) <==> moved <= suggested)
  }

  lemma RecommendationIsWorth(input: ComputeInput, now: Instant, checking: real)
    requires UsableAmounts(input.items)
    ensures IsWorth(checking - Required(Rows(TimelineOf(input, now))) - input.margin, KnownTo(input), now, checking,
                    input.margin)
  {
    hide Rows, Required, DayRequired, SafeToMove, SafeToMoveByTheDay, UsableAmounts, IsReading, NoCardFallsBehind,
         KnownTo, InputOf;
    hide TimelineOf;
    SameRowsKnown(input, now);
    forall moved: real
      ensures SafeToMove(Rows(TimelineOf(input, now)), checking, input.margin, moved) <==>
              moved <= checking - Required(Rows(TimelineOf(input, now))) - input.margin
    {
      SuggestedSweepIsTheMostThatIsSafe(input, now, checking, moved);
    }
    forall day: Reading, moved: real | IsReading(day) && NoCardFallsBehind(day, now, KnownTo(input))
      ensures SafeToMoveByTheDay(day, Rows(TimelineOf(input, now)), checking, input.margin, moved) <==>
              moved <= checking - Required(Rows(TimelineOf(input, now))) - input.margin
    {
      SuggestedSweepIsSafeByTheDay(day, input, now, checking, moved);
    }
  }

  /** Each reason is given exactly when some account gives it. */
  ghost predicate AreReasonsOf(reasons: seq<Reason>, cash: seq<Account>, credit: seq<Account>, now: Instant) {
    var checking := Positions(cash, false);
    && (CheckingUndetermined in reasons <==> |checking| != 1)
    && (|checking| != 1 ==> CheckingBalanceUnknown !in reasons && CheckingStale !in reasons)
    && (forall i :: i in checking && |checking| == 1 ==>
          && (CheckingBalanceUnknown in reasons <==> cash[i].balance == None)
          && (CheckingStale in reasons <==> cash[i].balance != None && IsOutOfDate(cash[i], now)))
    && (CardBalanceUnknown in reasons <==> exists i :: 0 <= i < |credit| && credit[i].balance == None)
    && (CardBalanceStale in reasons <==>
        exists i :: 0 <= i < |credit| && credit[i].balance != None && IsOutOfDate(credit[i], now))
  }

  lemma DerivedGiveTheirReasons(reasons: seq<Reason>, input: ComputeInput, cash: seq<Account>, credit: seq<Account>,
                                now: Instant)
    requires CashIsDerived(input, cash, now) && CardsAreDerived(input, credit, now)
    requires CheckingUndetermined in reasons <==> input.checkingUndetermined
    requires CheckingBalanceUnknown in reasons <==> input.checkingBalanceUnknown
    requires CheckingStale in reasons <==> input.checkingStale
    requires CardBalanceUnknown in reasons <==> input.cardBalanceUnknown
    requires CardBalanceStale in reasons <==> input.cardBalanceStale
    ensures AreReasonsOf(reasons, cash, credit, now)
  {
    hide Positions, IsOutOfDate;
    PositionsAreWithin(cash);
  }

  /** Compute, over the accounts, the active items and the decision table, the clock read once. */
  method Run(cash: seq<Account>, credit: seq<Account>, items: seq<Item>, margin: real, store: Store, now: Instant)
    returns (rec: Recommendation)
    ensures rec.computedAt == now
    ensures rec.NeedsAttention? <==>
              || |OfKind(cash, false)| != 1 || !Reliable(OfKind(cash, false)[0], now)
              || exists i :: 0 <= i < |credit| && !Reliable(credit[i], now)
    ensures rec.NeedsAttention? ==> AreReasonsOf(rec.reasons, cash, credit, now)
    ensures rec.Numeric? && FourDigitYear(LookupRange(now).0) && FourDigitYear(LookupRange(now).1) ==>
              rec.requiredChecking ==
              Required(Rows(InputOf(Knowledge(ReliableCards(credit, now), items, SettledInTable(store.rows)), now)))
    ensures rec.Numeric? ==> rec.currentChecking - rec.suggestedSweep == rec.requiredChecking + margin
    ensures rec.Numeric? && FourDigitYear(LookupRange(now).0) && FourDigitYear(LookupRange(now).1)
            && UsableAmounts(items) ==>
              IsWorth(rec.suggestedSweep, Knowledge(ReliableCards(credit, now), items, SettledInTable(store.rows)), now,
                      rec.currentChecking, margin)
    ensures rec.Numeric? && FourDigitYear(LookupRange(now).0) && FourDigitYear(LookupRange(now).1) ==>
              var input := InputOf(Knowledge(ReliableCards(credit, now), items, SettledInTable(store.rows)), now);
              && ShowsWhatIsOwed(rec.timeline, input)
              && (UsableAmounts(items) ==> rec.requiredChecking >= OverdueTotal(input, items))
    ensures rec.Numeric? ==>
              && (exists i :: 0 <= i < |cash| && !cash[i].countsAsSavings
                              && cash[i].balance == Some(rec.currentChecking))
              && rec.margin == margin
  {
    hide Rows, Required, OfKind, ReliableCards, LookupRange, FourDigitYear, InTextRange, OccurrenceKey, BalanceStale;
    hide CashIsDerived, CardsAreDerived, AreReasonsOf;
    hide IsWorth, UsableAmounts, TimelineOf, InputOf, Has, SettledInTable, KeysOf, ShowsWhatIsOwed, OverdueTotal,
         Sorted;
    hide RunningTotal, PeakRow;
    var service := new Service(store);
    var range := LookupRange(now);
    var byItem := service.SettledOccurrences(range.0, range.1);
    var derived := DeriveAccounts(cash, credit, now);
    var input := derived.(items := items, settled := Some(Has(byItem)), margin := margin);
    rec := Compute(input, now);
    if rec.NeedsAttention? {
      DerivedGiveTheirReasons(rec.reasons, derived, cash, credit, now);
    }
    if rec.Numeric? && FourDigitYear(LookupRange(now).0) && FourDigitYear(LookupRange(now).1) {
      LookedUpRunIsWorth(store.rows, byItem, now, input, rec.currentChecking);
      LookedUpRunShows(store.rows, byItem, now, input, rec.timeline);
    }
    if rec.Numeric? {
      OfKindIsExact(cash, false);
    }
  }

  lemma LookedUpRunShows(t: Table, byItem: map<string, set<string>>, now: Instant, input: ComputeInput,
                         timeline: seq<Event>)
    requires FourDigitYear(LookupRange(now).0) && FourDigitYear(LookupRange(now).1)
             && input.settled == Some(Has(byItem))
    requires forall id, day ::
               OccurrenceKey(day) in KeysOf(byItem, id) <==>
               Occurrence(id, day) in t && t[Occurrence(id, day)].txn.Some?
               && InTextRange(day, LookupRange(now).0, LookupRange(now).1)
    requires var s := Sorted(Rows(TimelineOf(input, now)), SortKey);
             && |timeline| == |s|
             && forall i :: 0 <= i < |s| ==>
                timeline[i] == s[i].(runningTotal := RunningTotal(s, i), peak := i == PeakRow(s))
    ensures var known := InputOf(Knowledge(input.cards, input.items, SettledInTable(t)), now);
            && ShowsWhatIsOwed(timeline, known)
            && (UsableAmounts(input.items) ==>
                Required(Rows(TimelineOf(input, now))) >= OverdueTotal(known, input.items))
  {
    hide Rows, Required, LookupRange, FourDigitYear, InTextRange, OccurrenceKey, UsableAmounts, Has, SettledInTable;
    hide KeysOf, TimelineOf, ShowsWhatIsOwed, OverdueTotal, Sorted, RunningTotal, PeakRow, HorizonFrom;
    var whole := input.(settled := Some(SettledInTable(t)));
    SettledLookupLosesNothing(t, byItem, now, input);
    assert input.(settled := Some(Has(byItem))) == input;
    SameRowsKnown(whole, now);
    var known := InputOf(Knowledge(input.cards, input.items, SettledInTable(t)), now);
    SortedShowsWhatIsOwed(timeline, known);
    if UsableAmounts(input.items) {
      HorizonIsAhead(now);
      OverdueIsReserved(known);
    }
  }

  /** The run over the looked-up matches is the run over the whole table. */
  lemma LookedUpRunIsWorth(t: Table, byItem: map<string, set<string>>, now: Instant, input: ComputeInput,
                           checking: real)
    requires FourDigitYear(LookupRange(now).0) && FourDigitYear(LookupRange(now).1)
             && input.settled == Some(Has(byItem))
    requires forall id, day ::
               OccurrenceKey(day) in KeysOf(byItem, id) <==>
               Occurrence(id, day) in t && t[Occurrence(id, day)].txn.Some?
               && InTextRange(day, LookupRange(now).0, LookupRange(now).1)
    ensures var known := Knowledge(input.cards, input.items, SettledInTable(t));
            var required := Required(Rows(TimelineOf(input, now)));
            && required == Required(Rows(InputOf(known, now)))
            && (UsableAmounts(input.items) ==>
                IsWorth(checking - required - input.margin, known, now, checking, input.margin))
  {
    hide Rows, Required, LookupRange, FourDigitYear, InTextRange, OccurrenceKey, IsWorth, UsableAmounts, Has,
         SettledInTable;
    hide KeysOf, TimelineOf, InputOf;
    var whole := input.(settled := Some(SettledInTable(t)));
    SettledLookupLosesNothing(t, byItem, now, input);
    assert input.(settled := Some(Has(byItem))) == input;
    SameRowsKnown(whole, now);
    if UsableAmounts(input.items) {
      RecommendationIsWorth(whole, now, checking);
    }
  }

  // --------------------------------------------------------------- history

  /** One snapshot positioned in the newest-first history; an empty id is no neighbour. */
  datatype Snapshot = Snapshot(id: string, olderID: string, newerID: string)

  /** neighbors: the newest for an empty id, else the first with that id. */
  method Neighbors(all: seq<string>, id: string) returns (snap: Option<Snapshot>, ghost at: int)
    ensures snap.Some? <==> all != [] && (id == "" || id in all)
    ensures snap.Some? ==>
              && 0 <= at < |all| && snap.value == SnapshotAt(all, at)
              && (if id == "" then at == 0 else all[at] == id && id !in all[..at])
              && snap.value.id == all[at]
              && snap.value.olderID == (if at == |all| - 1 then "" else all[at + 1])
              && snap.value.newerID == (if at == 0 then "" else all[at - 1])
  {
    at := -1;
    if |all| == 0 {
      return None, at;
    }
    var i := 0;
    if id != "" {
      while i < |all| && all[i] != id
        invariant 0 <= i <= |all| && id !in all[..i]
      {
        i := i + 1;
      }
      if i == |all| {
        return None, at;
      }
    }
    at := i;
    snap := Some(SnapshotAt(all, i));
  }

  function SnapshotAt(all: seq<string>, i: nat): Snapshot
    requires i < |all|
  {
    Snapshot(all[i], if i + 1 < |all| then all[i + 1] else "", if i > 0 then all[i - 1] else "")
  }

  /** Stepping to the older snapshot and back to the newer returns to where one was. */
  lemma StepsUndoEachOther(all: seq<string>, i: nat, j: nat)
    requires i < |all| && j < |all|
    requires forall a, b :: 0 <= a < b < |all| ==> all[a] != all[b]
    requires forall a :: 0 <= a < |all| ==> all[a] != ""
    ensures SnapshotAt(all, i).olderID == all[j] <==> SnapshotAt(all, j).newerID == all[i]
  {
  }
}
