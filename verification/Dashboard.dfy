/**
 The home page (src/internal/home/service.go): the tracker and the wrap of a month, and the drill
 into each figure they show, which reads its own rows and adds them up by its own route.
 */
module Dashboard {
  import opened Categorization
  import opened Common
  import opened Reporting
  import opened Spending
  import T = Tracker

  /** A row of the month as the read model carries it, its amount in dollars. */
  datatype Entry = Entry(id: string, category: Option<string>, classification: Classification, subtype: string,
                         amount: real, pending: bool)

  // ----------------------------------------------------------------- cents

  /** cents: the nearest whole cent, halves away from zero. */
  function Cents(amount: real): int {
    if amount < 0.0 then -(-amount * 100.0 + 0.5).Floor else (amount * 100.0 + 0.5).Floor
  }

  function Dollars(c: int): real {
    c as real / 100.0
  }

  /** The sign passes through the rounding, which is what the income drill relies on. */
  lemma CentsOfNegated(amount: real)
    ensures Cents(-amount) == -Cents(amount)
  {
  }

  lemma CentsIsNearest(amount: real)
    ensures -0.5 <= Cents(amount) as real - amount * 100.0 <= 0.5
    ensures amount > 0.0 ==> Cents(amount) as real - amount * 100.0 > -0.5
    ensures amount < 0.0 ==> Cents(amount) as real - amount * 100.0 < 0.5
  {
  }

  lemma CentsOfDollars(c: int)
    ensures Cents(Dollars(c)) == c
  {
    assert Dollars(c) * 100.0 == c as real;
    assert -Dollars(c) * 100.0 == -(c as real);
  }

  // ----------------------------------------------------- tracker and wrap

  function TxnOf(e: Entry): WrapTxn {
    WrapTxn(e.category, e.classification, Cents(e.amount), e.subtype, e.pending)
  }

  /** The month's rows as the wrap takes them. */
  function Txns(month: seq<Entry>): (txns: seq<WrapTxn>)
    ensures |txns| == |month|
  {
    seq(|month|, i requires 0 <= i < |month| => TxnOf(month[i]))
  }

  lemma OneMoreEntry(month: seq<Entry>, i: nat)
    requires i < |month|
    ensures Txns(month[..i + 1]) == Txns(month[..i]) + [TxnOf(month[i])]
    ensures var t, front := TxnOf(month[i]), Txns(month[..i]);
            && IncomeOf(Txns(month[..i + 1])) == IncomeOf(front) + (if t.classification.Income? then -t.cents else 0)
            && SavingsOf(Txns(month[..i + 1])) ==
               SavingsOf(front) + (if t.subtype == SAVINGS_CONTRIBUTION then t.cents else 0)
            && SpendOf(Txns(month[..i + 1])) ==
               if t.classification.Spending? then SpendOf(front) + [Spend(t.category, t.cents)] else SpendOf(front)
  {
    hide Cents, IncomeOf, SavingsOf, SpendOf;
    var txns := Txns(month[..i + 1]);
    assert txns == Txns(month[..i]) + [TxnOf(month[i])];
    OneMoreTxn(txns, i);
    assert txns[..i] == Txns(month[..i]) && txns[..i + 1] == txns;
  }

  lemma NoEntries()
    ensures IncomeOf(Txns([])) == 0 && SavingsOf(Txns([])) == 0 && SpendOf(Txns([])) == []
  {
  }

  /** monthSpend. */
  method MonthSpend(month: seq<Entry>) returns (spend: seq<Spend>)
    ensures spend == SpendOf(Txns(month))
  {
    hide Cents, SpendOf, Txns;
    spend := [];
    NoEntries();
    for i := 0 to |month|
      invariant spend == SpendOf(Txns(month[..i]))
    {
      OneMoreEntry(month, i);
      if !month[i].classification.Spending? {
        continue;
      }
      spend := spend + [Spend(month[i].category, Cents(month[i].amount))];
    }
    assert month[..|month|] == month;
  }

  /** incomeCents. */
  method IncomeCents(month: seq<Entry>) returns (total: int)
    ensures total == IncomeOf(Txns(month))
  {
    hide Cents, IncomeOf, Txns;
    total := 0;
    NoEntries();
    for i := 0 to |month|
      invariant total == IncomeOf(Txns(month[..i]))
    {
      OneMoreEntry(month, i);
      if month[i].classification.Income? {
        total := total + -Cents(month[i].amount);
      }
    }
    assert month[..|month|] == month;
  }

  /** savingsCents. */
  method SavingsCents(month: seq<Entry>) returns (total: int)
    ensures total == SavingsOf(Txns(month))
  {
    hide Cents, SavingsOf, Txns;
    total := 0;
    NoEntries();
    for i := 0 to |month|
      invariant total == SavingsOf(Txns(month[..i]))
    {
      OneMoreEntry(month, i);
      if month[i].subtype == SAVINGS_CONTRIBUTION {
        total := total + Cents(month[i].amount);
      }
    }
    assert month[..|month|] == month;
  }

  /** The tracker of a month's rows. */
  ghost predicate IsTracker(view: T.View, month: seq<Entry>, budget: Option<T.Budget>, daysLeft: int) {
    var txns := Txns(month);
    && view.totalSpend == Net(SpendOf(txns), EVERY)
    && view.income == IncomeOf(txns) && view.savings == SavingsOf(txns)
    && (view.plan.Some? <==> T.IsSet(budget))
    && (view.plan.Some? ==>
          T.IsPlanFor(view.plan.value, budget.value, SpendOf(txns), IncomeOf(txns), SavingsOf(txns), daysLeft))
  }

  /** CurrentMonthTracker. */
  method CurrentMonthTracker(month: seq<Entry>, budget: Option<T.Budget>, daysLeft: int) returns (view: T.View)
    ensures IsTracker(view, month, budget, daysLeft)
  {
    hide Cents, IncomeOf, SavingsOf, SpendOf, Txns, Net, T.IsPlanFor;
    var spend := MonthSpend(month);
    var income := IncomeCents(month);
    var savings := SavingsCents(month);
    view := T.BuildTracker(budget, spend, income, savings, daysLeft);
  }

  /** The wrap of a month's rows. */
  ghost predicate IsWrap(view: WrapView, month: seq<Entry>) {
    var txns := Txns(month);
    && view.grossIncome == IncomeOf(txns) && view.savings == SavingsOf(txns)
    && view.totalSpending == Net(SpendOf(txns), EVERY)
    && view.netIncome == view.grossIncome - view.totalSpending
    && view.surplus == view.netIncome - view.savings
    && Groups(view.byCategory, SpendOf(txns))
    && (view.state.Settling? <==> exists i :: 0 <= i < |month| && month[i].pending)
  }

  /** MonthWrap. */
  method MonthWrap(month: seq<Entry>, partial: bool) returns (view: WrapView)
    ensures IsWrap(view, month) && view.partial == partial
  {
    hide Cents, IncomeOf, SavingsOf, SpendOf, Net, Groups;
    var txns := [];
    for i := 0 to |month|
      invariant txns == Txns(month[..i])
    {
      txns := txns + [TxnOf(month[i])];
    }
    assert month[..|month|] == month;
    view := BuildWrap(txns, partial);
    assert forall i :: 0 <= i < |month| ==> txns[i].pending == month[i].pending;
  }

  // ---------------------------------------------------------------- drills

  const BUCKET_UNCATEGORIZED := "uncategorized"
  const BUCKET_EVERYTHING_ELSE := "everything-else"
  const BUCKET_INCOME := "income"
  const BUCKET_SAVINGS := "savings"

  /** The names that are not category ids. */
  predicate IsReserved(bucket: string) {
    bucket in {BUCKET_UNCATEGORIZED, BUCKET_EVERYTHING_ELSE, BUCKET_INCOME, BUCKET_SAVINGS}
  }

  /** The three reads of the table behind the drills. */
  datatype Read = IncomeRead | SavingsRead | SpendingRead

  predicate Selects(read: Read, e: Entry) {
    match read
    case IncomeRead => e.classification.Income?
    case SavingsRead => e.subtype == SAVINGS_CONTRIBUTION
    case SpendingRead => e.classification.Spending?
  }

  function Rows(month: seq<Entry>, read: Read): seq<Entry> {
    if month == [] then []
    else Rows(month[..|month| - 1], read) + if Selects(read, month[|month| - 1]) then [month[|month| - 1]] else []
  }

  /** bucketSelector: the rows a spending bucket keeps. */
  predicate InBucket(bucket: string, budgeted: set<string>, e: Entry) {
    if bucket == BUCKET_UNCATEGORIZED then e.category.None?
    else if bucket == BUCKET_EVERYTHING_ELSE then e.category.None? || e.category.value !in budgeted
    else e.category.Some? && e.category.value == bucket
  }

  function Kept(rows: seq<Entry>, bucket: string, budgeted: set<string>): seq<Entry> {
    if rows == [] then []
    else
      Kept(rows[..|rows| - 1], bucket, budgeted)
      + if InBucket(bucket, budgeted, rows[|rows| - 1]) then [rows[|rows| - 1]] else []
  }

  /** A row in the figure's positive orientation. */
  function Oriented(e: Entry, negate: bool): Entry {
    if negate then e.(amount := -e.amount) else e
  }

  datatype Drill = Drill(total: real, rows: seq<Entry>)

  // What a drill lists, row by row.

  function SumCents(rows: seq<Entry>): int {
    if rows == [] then 0 else SumCents(rows[..|rows| - 1]) + Cents(rows[|rows| - 1].amount)
  }

  lemma OneMoreCents(rows: seq<Entry>, e: Entry)
    ensures SumCents(rows + [e]) == SumCents(rows) + Cents(e.amount)
  {
    hide Cents;
    assert (rows + [e])[..|rows|] == rows;
  }

  /** The rows of the month a bucket lists. */
  predicate BelongsTo(e: Entry, bucket: string, budgeted: set<string>) {
    if bucket == BUCKET_INCOME then e.classification.Income?
    else if bucket == BUCKET_SAVINGS then e.subtype == SAVINGS_CONTRIBUTION
    else
      && e.classification.Spending?
      && (bucket == BUCKET_UNCATEGORIZED ==> e.category == None)
      && (bucket == BUCKET_EVERYTHING_ELSE ==> forall c :: e.category == Some(c) ==> c !in budgeted)
      && (bucket != BUCKET_UNCATEGORIZED && bucket != BUCKET_EVERYTHING_ELSE ==> e.category == Some(bucket))
  }

  /** Each of those rows once, in the month's order, income with its sign turned; at says where each stands. */
  ghost predicate IsListed(rows: seq<Entry>, month: seq<Entry>, at: seq<int>, bucket: string, budgeted: set<string>) {
    && |at| == |rows| && (forall k, l :: 0 <= k < l < |at| ==> at[k] < at[l])
    && (forall k :: 0 <= k < |at| ==>
          && 0 <= at[k] < |month| && BelongsTo(month[at[k]], bucket, budgeted)
          && rows[k] == month[at[k]].(amount := if bucket == BUCKET_INCOME then -month[at[k]].amount
                                                else month[at[k]].amount))
    && forall p :: 0 <= p < |month| && BelongsTo(month[p], bucket, budgeted) ==> p in at
  }

  lemma NothingListed(bucket: string, budgeted: set<string>)
    ensures IsListed([], [], [], bucket, budgeted)
  {
  }

  /** One more row of the month: listed behind the others if it belongs, and skipped if not. */
  lemma OneMoreListed(rows: seq<Entry>, month: seq<Entry>, at: seq<int>, e: Entry, bucket: string,
                      budgeted: set<string>)
    requires IsListed(rows, month, at, bucket, budgeted)
    ensures BelongsTo(e, bucket, budgeted) ==>
              IsListed(rows + [Oriented(e, bucket == BUCKET_INCOME)], month + [e], at + [|month|], bucket, budgeted)
    ensures !BelongsTo(e, bucket, budgeted) ==> IsListed(rows, month + [e], at, bucket, budgeted)
  {
    hide BelongsTo;
    var (more, longer) := (month + [e], at + [|month|]);
    assert forall p :: 0 <= p < |month| ==> more[p] == month[p];
    assert |month| in longer;
    if BelongsTo(e, bucket, budgeted) {
      forall p | 0 <= p < |more| && BelongsTo(more[p], bucket, budgeted) ensures p in longer {
        if p < |month| {
          assert p in at;
        }
      }
    }
  }

  lemma NothingKept(bucket: string, budgeted: set<string>)
    ensures Kept([], bucket, budgeted) == []
  {
  }

  lemma KeptGrows(front: seq<Entry>, e: Entry, bucket: string, budgeted: set<string>)
    requires bucket != BUCKET_INCOME && bucket != BUCKET_SAVINGS
    ensures var kept := Kept(Rows(front, SpendingRead), bucket, budgeted);
            Kept(Rows(front + [e], SpendingRead), bucket, budgeted) ==
            if BelongsTo(e, bucket, budgeted) then kept + [e] else kept
  {
    assert (front + [e])[..|front|] == front;
    var rows := Rows(front, SpendingRead);
    assert (rows + [e])[..|rows|] == rows;
    assert rows + [] == rows;
  }

  lemma {:induction false} KeptAreListed(month: seq<Entry>, bucket: string, budgeted: set<string>)
    returns (at: seq<int>)
    requires bucket != BUCKET_INCOME && bucket != BUCKET_SAVINGS
    ensures IsListed(Kept(Rows(month, SpendingRead), bucket, budgeted), month, at, bucket, budgeted)
  {
    hide IsListed, Kept, BelongsTo;
    at := [];
    if month == [] {
      NothingListed(bucket, budgeted);
      NothingKept(bucket, budgeted);
      assert Rows(month, SpendingRead) == [];
    } else {
      var n := |month| - 1;
      var front, e := month[..n], month[n];
      at := KeptAreListed(front, bucket, budgeted);
      OneMoreListed(Kept(Rows(front, SpendingRead), bucket, budgeted), front, at, e, bucket, budgeted);
      assert front + [e] == month;
      KeptGrows(front, e, bucket, budgeted);
      if BelongsTo(e, bucket, budgeted) {
        at := at + [n];
      }
    }
  }

  /** The rows of a read, each in its figure's orientation. */
  ghost predicate AreOriented(kept: seq<Entry>, rows: seq<Entry>, negate: bool) {
    |kept| == |rows| && forall i :: 0 <= i < |rows| ==> kept[i] == Oriented(rows[i], negate)
  }

  lemma {:induction false} OrientedAreListed(kept: seq<Entry>, month: seq<Entry>, bucket: string, budgeted: set<string>)
    returns (at: seq<int>)
    requires bucket == BUCKET_INCOME || bucket == BUCKET_SAVINGS
    requires var read := if bucket == BUCKET_INCOME then IncomeRead else SavingsRead;
             AreOriented(kept, Rows(month, read), bucket == BUCKET_INCOME)
    ensures IsListed(kept, month, at, bucket, budgeted)
  {
    hide IsListed, BelongsTo, Selects, Oriented, AreOriented, Rows;
    var read := if bucket == BUCKET_INCOME then IncomeRead else SavingsRead;
    at := [];
    if month == [] {
      NothingListed(bucket, budgeted);
      NothingOriented(kept, read, bucket == BUCKET_INCOME);
    } else {
      var n := |month| - 1;
      var front, e := month[..n], month[n];
      SelectedBelong(e, bucket, budgeted);
      RowsGrow(front, e, read);
      assert front + [e] == month;
      var before := kept;
      if Selects(read, e) {
        OrientedFront(kept, Rows(front, read), e, bucket == BUCKET_INCOME);
        before := kept[..|kept| - 1];
      }
      at := OrientedAreListed(before, front, bucket, budgeted);
      OneMoreListed(before, front, at, e, bucket, budgeted);
      if Selects(read, e) {
        at := at + [n];
      }
    }
  }

  lemma NothingOriented(kept: seq<Entry>, read: Read, negate: bool)
    requires AreOriented(kept, Rows([], read), negate)
    ensures kept == []
  {
  }

  lemma SelectedBelong(e: Entry, bucket: string, budgeted: set<string>)
    requires bucket == BUCKET_INCOME || bucket == BUCKET_SAVINGS
    ensures Selects(if bucket == BUCKET_INCOME then IncomeRead else SavingsRead, e) <==> BelongsTo(e, bucket, budgeted)
  {
  }

  lemma RowsGrow(front: seq<Entry>, e: Entry, read: Read)
    ensures Rows(front + [e], read) == if Selects(read, e) then Rows(front, read) + [e] else Rows(front, read)
  {
    hide Selects;
    assert (front + [e])[..|front|] == front;
  }

  lemma OrientedFront(kept: seq<Entry>, rows: seq<Entry>, e: Entry, negate: bool)
    requires AreOriented(kept, rows + [e], negate)
    ensures var n := |kept| - 1;
            n >= 0 && AreOriented(kept[..n], rows, negate) && kept == kept[..n] + [Oriented(e, negate)]
  {
    hide Oriented;
    var n := |kept| - 1;
    assert kept[n] == Oriented((rows + [e])[n], negate);
    assert forall i :: 0 <= i < n ==> (rows + [e])[i] == rows[i];
  }

  /** The categories of a spending bucket. */
  ghost function CategoriesIn(bucket: string, budgeted: set<string>): Categories {
    if bucket == BUCKET_UNCATEGORIZED then iset{None}
    else if bucket == BUCKET_EVERYTHING_ELSE then AllBut(budgeted)
    else iset{Some(bucket)}
  }

  /** The figure a bucket stands for, in cents, from the month's rows alone. */
  ghost function Figure(bucket: string, month: seq<Entry>, budgeted: set<string>): int {
    if bucket == BUCKET_INCOME then IncomeOf(Txns(month))
    else if bucket == BUCKET_SAVINGS then SavingsOf(Txns(month))
    else Net(SpendOf(Txns(month)), CategoriesIn(bucket, budgeted))
  }

  /** Each read loses no row its figure counts. */
  lemma {:induction false} ReadsAreExact(month: seq<Entry>)
    ensures IncomeOf(Txns(Rows(month, IncomeRead))) == IncomeOf(Txns(month))
    ensures SavingsOf(Txns(Rows(month, SavingsRead))) == SavingsOf(Txns(month))
    ensures SpendOf(Txns(Rows(month, SpendingRead))) == SpendOf(Txns(month))
  {
    hide Cents, IncomeOf, SavingsOf, SpendOf, Txns;
    if month != [] {
      var n := |month| - 1;
      assert month[..n + 1] == month;
      ReadsAreExact(month[..n]);
      OneMoreEntry(month, n);
      ReadGrows(month[..n], month[n], IncomeRead);
      ReadGrows(month[..n], month[n], SavingsRead);
      ReadGrows(month[..n], month[n], SpendingRead);
    }
  }

  /** One more row of the month, if the read selects it, is one more row read. */
  lemma ReadGrows(front: seq<Entry>, e: Entry, read: Read)
    ensures var rows := Rows(front, read);
            var more := Rows(front + [e], read);
            var t := TxnOf(e);
            && more == (if Selects(read, e) then rows + [e] else rows)
            && (Selects(read, e) ==>
                  && IncomeOf(Txns(more)) == IncomeOf(Txns(rows)) + (if t.classification.Income? then -t.cents else 0)
                  && SavingsOf(Txns(more)) ==
                     SavingsOf(Txns(rows)) + (if t.subtype == SAVINGS_CONTRIBUTION then t.cents else 0)
                  && SpendOf(Txns(more)) ==
                     if t.classification.Spending? then SpendOf(Txns(rows)) + [Spend(t.category, t.cents)]
                     else SpendOf(Txns(rows)))
  {
    hide Cents, IncomeOf, SavingsOf, SpendOf, Txns;
    assert (front + [e])[..|front|] == front;
    if Selects(read, e) {
      var more := Rows(front, read) + [e];
      OneMoreEntry(more, |more| - 1);
      assert more[..|more| - 1] == Rows(front, read) && more[..|more| - 1 + 1] == more;
    }
  }

  /** The loop of SpendDrill over a spending bucket. */
  method BucketDrill(rows: seq<Entry>, bucket: string, budgeted: set<string>) returns (net: int, kept: seq<Entry>)
    requires forall i :: 0 <= i < |rows| ==> rows[i].classification.Spending?
    ensures kept == Kept(rows, bucket, budgeted)
    ensures net == Net(SpendOf(Txns(rows)), CategoriesIn(bucket, budgeted))
    ensures net == SumCents(kept)
  {
    hide Cents, SpendOf, Txns, Net, CategoriesIn, InBucket;
    net, kept := 0, [];
    NoEntries();
    NoSpend(CategoriesIn(bucket, budgeted));
    for i := 0 to |rows|
      invariant net == Net(SpendOf(Txns(rows[..i])), CategoriesIn(bucket, budgeted)) && net == SumCents(kept)
      invariant kept == Kept(rows[..i], bucket, budgeted)
    {
      OneMoreEntry(rows, i);
      OneMoreBucketed(SpendOf(Txns(rows[..i])), rows[i], bucket, budgeted);
      assert rows[..i + 1][..i] == rows[..i];
      if !InBucket(bucket, budgeted, rows[i]) {
        continue;
      }
      OneMoreCents(kept, rows[i]);
      kept := kept + [rows[i]];
      net := net + Cents(rows[i].amount);
    }
    assert rows[..|rows|] == rows;
  }

  lemma NoSpend(categories: Categories)
    ensures Net([], categories) == 0
  {
  }

  lemma OneMoreBucketed(spend: seq<Spend>, e: Entry, bucket: string, budgeted: set<string>)
    ensures Net(spend + [Spend(e.category, Cents(e.amount))], CategoriesIn(bucket, budgeted)) ==
            Net(spend, CategoriesIn(bucket, budgeted)) + if InBucket(bucket, budgeted, e) then Cents(e.amount) else 0
  {
    hide Cents, Net;
    var more := spend + [Spend(e.category, Cents(e.amount))];
    OneMoreSpend(more, |spend|, CategoriesIn(bucket, budgeted));
    assert more[..|spend|] == spend && more[..|spend| + 1] == more;
  }

  /** figureDrill: the figure's own rows, in its positive orientation. */
  method FigureDrill(rows: seq<Entry>, negate: bool) returns (total: int, kept: seq<Entry>)
    requires if negate then forall i :: 0 <= i < |rows| ==> Selects(IncomeRead, rows[i])
             else forall i :: 0 <= i < |rows| ==> Selects(SavingsRead, rows[i])
    ensures total == (if negate then IncomeOf(Txns(rows)) else SavingsOf(Txns(rows))) && total == SumCents(kept)
    ensures AreOriented(kept, rows, negate)
  {
    hide Cents, IncomeOf, SavingsOf, SpendOf, Txns;
    total, kept := 0, [];
    NoEntries();
    for i := 0 to |rows|
      invariant total == (if negate then IncomeOf(Txns(rows[..i])) else SavingsOf(Txns(rows[..i])))
      invariant total == SumCents(kept)
      invariant |kept| == i && forall j :: 0 <= j < i ==> kept[j] == Oriented(rows[j], negate)
    {
      OneMoreEntry(rows, i);
      CentsOfNegated(rows[i].amount);
      var r := rows[i];
      if negate {
        r := r.(amount := -r.amount);
      }
      OneMoreCents(kept, r);
      total := total + Cents(r.amount);
      kept := kept + [r];
    }
    assert rows[..|rows|] == rows;
  }

  lemma {:induction false} RowsAreSelected(month: seq<Entry>, read: Read)
    ensures forall i :: 0 <= i < |Rows(month, read)| ==> Selects(read, Rows(month, read)[i])
  {
    hide Selects;
    if month != [] {
      RowsAreSelected(month[..|month| - 1], read);
    }
  }

  /** SpendDrill: the residual bucket only for the current month; every other total is its bucket's figure. */
  method SpendDrill(month: seq<Entry>, bucket: string, budgeted: set<string>, isCurrentMonth: bool)
    returns (r: Result<Drill>)
    ensures r.Err? <==> bucket == BUCKET_EVERYTHING_ELSE && !isCurrentMonth
    ensures r.Ok? ==> r.result.total == Dollars(Figure(bucket, month, budgeted))
    ensures r.Ok? ==> r.result.total * 100.0 == SumCents(r.result.rows) as real
    ensures r.Ok? ==> exists at :: IsListed(r.result.rows, month, at, bucket, budgeted)
  {
    hide Cents, IncomeOf, SavingsOf, SpendOf, Txns, Net, CategoriesIn, Kept, Rows, SumCents, IsListed, AreOriented;
    ReadsAreExact(month);
    if bucket == BUCKET_INCOME {
      RowsAreSelected(month, IncomeRead);
      var total, kept := FigureDrill(Rows(month, IncomeRead), true);
      ghost var at := OrientedAreListed(kept, month, bucket, budgeted);
      return Ok(Drill(Dollars(total), kept));
    }
    if bucket == BUCKET_SAVINGS {
      RowsAreSelected(month, SavingsRead);
      var total, kept := FigureDrill(Rows(month, SavingsRead), false);
      ghost var at := OrientedAreListed(kept, month, bucket, budgeted);
      return Ok(Drill(Dollars(total), kept));
    }
    if bucket == BUCKET_EVERYTHING_ELSE && !isCurrentMonth {
      return Err("the everything-else bucket is for the current month");
    }
    RowsAreSelected(month, SpendingRead);
    var net, kept := BucketDrill(Rows(month, SpendingRead), bucket, budgeted);
    ghost var at := KeptAreListed(month, bucket, budgeted);
    r := Ok(Drill(Dollars(net), kept));
  }

  // -------------------------------------------------------- reconciliation

  /** The bucket a wrap row drills into. */
  function BucketOf(category: Option<string>): string {
    if category.Some? then category.value else BUCKET_UNCATEGORIZED
  }

  /** The category's id is none of the reserved names. */
  predicate HasItsOwnBucket(category: Option<string>) {
    category.Some? ==> !IsReserved(category.value)
  }

  /** A category row's bucket selects that category's rows exactly when its id is no reserved name. */
  lemma CategoryBuckets(category: Option<string>, budgeted: set<string>)
    ensures HasItsOwnBucket(category) <==>
              && BucketOf(category) != BUCKET_INCOME && BucketOf(category) != BUCKET_SAVINGS
              && CategoriesIn(BucketOf(category), budgeted) == iset{category}
  {
    var uncategorized: Option<string> := None;
    assert uncategorized in AllBut(budgeted) && uncategorized in iset{uncategorized};
  }

  /** Every figure of the tracker and its drill are the same sum. */
  lemma TrackerMatchesItsDrills(view: T.View, month: seq<Entry>, b: T.Budget, daysLeft: int)
    requires IsTracker(view, month, Some(b), daysLeft)
    ensures view.income == Figure(BUCKET_INCOME, month, T.Ids(b.limits))
    ensures view.savings == Figure(BUCKET_SAVINGS, month, T.Ids(b.limits))
    ensures view.plan.Some? ==>
              && view.plan.value.elseSpent == Figure(BUCKET_EVERYTHING_ELSE, month, T.Ids(b.limits))
              && |view.plan.value.categories| == |b.limits|
              && forall i :: 0 <= i < |b.limits| && !IsReserved(b.limits[i].category) ==>
                   view.plan.value.categories[i].spent == Figure(b.limits[i].category, month, T.Ids(b.limits))
  {
    hide Net, Txns, SpendOf, IncomeOf, SavingsOf, IsReserved, T.Ids, T.PaceFor, T.IsShare;
    var budgeted := T.Ids(b.limits);
    assert CategoriesIn(BUCKET_EVERYTHING_ELSE, budgeted) == AllBut(budgeted);
    forall i | 0 <= i < |b.limits| && !IsReserved(b.limits[i].category)
      ensures Figure(b.limits[i].category, month, budgeted) ==
              Net(SpendOf(Txns(month)), iset{Some(b.limits[i].category)})
    {
      CategoryBuckets(Some(b.limits[i].category), budgeted);
    }
  }

  /** Every figure of the wrap and its drill are the same sum, and the drilled rows cover the month's spending. */
  lemma WrapMatchesItsDrills(view: WrapView, month: seq<Entry>, budgeted: set<string>)
    requires IsWrap(view, month)
    ensures view.grossIncome == Figure(BUCKET_INCOME, month, budgeted)
    ensures view.savings == Figure(BUCKET_SAVINGS, month, budgeted)
    ensures forall i :: 0 <= i < |view.byCategory| && HasItsOwnBucket(view.byCategory[i].category) ==>
              view.byCategory[i].net == Figure(BucketOf(view.byCategory[i].category), month, budgeted)
    ensures Net(view.byCategory, EVERY) == view.totalSpending
  {
    hide Net, Txns, SpendOf, IncomeOf, SavingsOf, FirstSeen, HasItsOwnBucket, BucketOf, CategoriesIn;
    GroupsReconcile(view.byCategory, SpendOf(Txns(month)), EVERY);
    forall i | 0 <= i < |view.byCategory| && HasItsOwnBucket(view.byCategory[i].category)
      ensures view.byCategory[i].net == Figure(BucketOf(view.byCategory[i].category), month, budgeted)
    {
      CategoryBuckets(view.byCategory[i].category, budgeted);
    }
  }

  /** The tracker and the wrap of one month agree, and the tracker's remainders conserve the wrap's spending. */
  lemma TrackerMatchesWrap(tracked: T.View, wrapped: WrapView, month: seq<Entry>, budget: Option<T.Budget>,
                           daysLeft: int)
    requires IsTracker(tracked, month, budget, daysLeft) && IsWrap(wrapped, month)
    ensures tracked.totalSpend == wrapped.totalSpending
    ensures tracked.income == wrapped.grossIncome && tracked.savings == wrapped.savings
    ensures tracked.plan.Some? && T.AreDistinct(budget.value.limits) ==>
              T.TotalLeft(tracked.plan.value.categories) + tracked.plan.value.elseRemaining ==
              budget.value.income - budget.value.savings - wrapped.totalSpending
  {
    hide Net, Txns, SpendOf, IncomeOf, SavingsOf, T.IsPlanFor, T.AreDistinct, T.TotalLeft, Groups;
    if tracked.plan.Some? && T.AreDistinct(budget.value.limits) {
      T.DistinctLimitsConserve(tracked.plan.value, budget.value, SpendOf(Txns(month)), IncomeOf(Txns(month)),
                               SavingsOf(Txns(month)), daysLeft);
    }
  }
}
