/** The current month against the budget (src/internal/tracker/tracker.go). */
module Tracker {
  import opened Common
  import opened Spending

  datatype Limit = Limit(category: string, cents: int)

  datatype Budget = Budget(income: int, savings: int, limits: seq<Limit>)

  datatype Pace = Pace(daily: int, weekly: int)

  datatype Standing = Standing(category: string, limit: int, spent: int, remaining: int, pace: Pace, over: bool,
                               ratio: real)

  datatype Progress = Progress(soFar: int, target: int, ratio: real)

  datatype Plan = Plan(categories: seq<Standing>, totalRemaining: int, totalBudget: int, totalPace: Pace,
                       totalRatio: real,
                       elseBudget: int, elseSpent: int, elseRemaining: int, elsePace: Pace, elseOver: bool,
                       elseRatio: real,
                       incomeProgress: Progress, savingsProgress: Progress)

  /** The actuals, and the plan unless no budget is set. */
  datatype View = View(plan: Option<Plan>, totalSpend: int, income: int, savings: int)

  /** budgetIsEmpty. */
  predicate IsEmpty(budget: Option<Budget>) {
    budget.None? || (budget.value.income == 0 && budget.value.savings == 0 && budget.value.limits == [])
  }

  /** There is a plan to measure against: an income, savings or a limit. */
  predicate IsSet(budget: Option<Budget>) {
    budget.Some? && (budget.value.income != 0 || budget.value.savings != 0 || |budget.value.limits| > 0)
  }

  /** paceFor: the most whole cents a day that what remains can carry to the end of the month. */
  function PaceFor(remaining: int, daysLeft: int): (p: Pace)
    ensures p.daily >= 0 && p.weekly == 7 * p.daily
    ensures remaining > 0 && daysLeft >= 1 ==> p.daily * daysLeft <= remaining < (p.daily + 1) * daysLeft
    ensures remaining <= 0 || daysLeft < 1 ==> p.daily == 0
  {
    if remaining <= 0 || daysLeft < 1 then Pace(0, 0)
    else Pace(remaining / daysLeft, 7 * (remaining / daysLeft))
  }

  /** The ratio is the part's share of the whole, and zero where there is no whole. */
  predicate IsShare(ratio: real, part: int, whole: int) {
    if whole > 0 then ratio * whole as real == part as real else ratio == 0.0
  }

  /** ratioOf. */
  function RatioOf(spent: int, budget: int): (ratio: real)
    ensures IsShare(ratio, spent, budget)
  {
    if budget <= 0 then 0.0 else spent as real / budget as real
  }

  /** progressFor. */
  function ProgressFor(soFar: int, target: int): (p: Progress)
    ensures p.soFar == soFar && p.target == target && IsShare(p.ratio, soFar, target)
  {
    Progress(soFar, target, if target > 0 then soFar as real / target as real else 0.0)
  }

  function Ids(limits: seq<Limit>): set<string> {
    set i | 0 <= i < |limits| :: limits[i].category
  }

  function TotalLimits(limits: seq<Limit>): int {
    if limits == [] then 0 else TotalLimits(limits[..|limits| - 1]) + limits[|limits| - 1].cents
  }

  /** The remainders of the budgeted categories, summed. */
  function TotalLeft(categories: seq<Standing>): int {
    if categories == [] then 0 else TotalLeft(categories[..|categories| - 1]) + categories[|categories| - 1].remaining
  }

  /** A limit measured against the spending of its own category. */
  ghost predicate IsMeasured(s: Standing, l: Limit, spend: seq<Spend>, daysLeft: int) {
    && s.category == l.category && s.limit == l.cents && s.spent == Net(spend, iset{Some(l.category)})
    && s.spent + s.remaining == s.limit && (s.over <==> s.remaining < 0)
    && s.pace == PaceFor(s.remaining, daysLeft) && IsShare(s.ratio, s.spent, s.limit)
  }

  /** A standing for each limit. */
  ghost predicate AreMeasured(categories: seq<Standing>, limits: seq<Limit>, spend: seq<Spend>, daysLeft: int) {
    && |categories| == |limits|
    && forall i :: 0 <= i < |limits| ==>
         IsMeasured(categories[i], limits[i], spend, daysLeft)
  }

  /** The remainder of every row shown is in the total, and each row is measured against its own spending. */
  ghost predicate IsPlanFor(p: Plan, b: Budget, spend: seq<Spend>, income: int, savings: int, daysLeft: int) {
    && AreMeasured(p.categories, b.limits, spend, daysLeft)
    && p.elseBudget == b.income - TotalLimits(b.limits) - b.savings
    && p.elseSpent == Net(spend, AllBut(Ids(b.limits)))
    && p.elseSpent + p.elseRemaining == p.elseBudget && (p.elseOver <==> p.elseRemaining < 0)
    && p.elsePace == PaceFor(p.elseRemaining, daysLeft)
    && IsShare(p.elseRatio, p.elseSpent, p.elseBudget)
    && p.totalRemaining == TotalLeft(p.categories) + p.elseRemaining
    && p.totalBudget == b.income - b.savings
    && p.totalPace == PaceFor(p.totalRemaining, daysLeft)
    && IsShare(p.totalRatio, Net(spend, EVERY), p.totalBudget)
    && p.incomeProgress.soFar == income && p.incomeProgress.target == b.income
    && IsShare(p.incomeProgress.ratio, income, b.income)
    && p.savingsProgress.soFar == savings && p.savingsProgress.target == b.savings
    && IsShare(p.savingsProgress.ratio, savings, b.savings)
  }

  type NetByCategory = map<string, int>

  /** The running sums of the first loop of BuildTracker. */
  ghost predicate SumsSpend(catNet: NetByCategory, uncategorized: int, total: int, spend: seq<Spend>) {
    && (forall id :: id in catNet ==> catNet[id] == Net(spend, iset{Some(id)}))
    && (forall id :: id !in catNet ==> Net(spend, iset{Some(id)}) == 0)
    && (forall i :: 0 <= i < |spend| && spend[i].category.Some? ==> spend[i].category.value in catNet)
    && uncategorized == Net(spend, iset{None})
    && total == Net(spend, EVERY)
  }

  lemma OneMoreSummed(catNet: NetByCategory, uncategorized: int, total: int, spend: seq<Spend>, n: nat)
    requires n < |spend| && SumsSpend(catNet, uncategorized, total, spend[..n])
    ensures var s := spend[n];
            if s.category.None? then SumsSpend(catNet, uncategorized + s.net, total + s.net, spend[..n + 1])
            else
              var id := s.category.value;
              SumsSpend(catNet[id := (if id in catNet then catNet[id] else 0) + s.net], uncategorized, total + s.net,
                        spend[..n + 1])
  {
    hide Net;
    assert forall i :: 0 <= i < n ==> spend[..n + 1][i] == spend[..n][i];
    forall categories: Categories
      ensures Net(spend[..n + 1], categories) ==
              Net(spend[..n], categories) + if spend[n].category in categories then spend[n].net else 0
    {
      OneMoreSpend(spend, n, categories);
    }
  }

  lemma NothingSummed()
    ensures SumsSpend(map[], 0, 0, [])
  {
  }

  /** The first loop of BuildTracker. */
  method SumSpend(spend: seq<Spend>) returns (catNet: NetByCategory, uncategorized: int, total: int)
    ensures SumsSpend(catNet, uncategorized, total, spend)
  {
    hide SumsSpend;
    catNet, uncategorized, total := map[], 0, 0;
    NothingSummed();
    for i := 0 to |spend|
      invariant SumsSpend(catNet, uncategorized, total, spend[..i])
    {
      var s := spend[i];
      OneMoreSummed(catNet, uncategorized, total, spend, i);
      total := total + s.net;
      if s.category.None? {
        uncategorized := uncategorized + s.net;
        continue;
      }
      var id := s.category.value;
      catNet := catNet[id := (if id in catNet then catNet[id] else 0) + s.net];
    }
    assert spend[..|spend|] == spend;
  }

  /** The loop over the limits: a standing for each, and the two totals. */
  method MeasureLimits(limits: seq<Limit>, catNet: NetByCategory, daysLeft: int, ghost spend: seq<Spend>)
    returns (budgeted: set<string>, categories: seq<Standing>, totalLimits: int, totalRemaining: int)
    requires forall id :: id in catNet ==> catNet[id] == Net(spend, iset{Some(id)})
    requires forall id :: id !in catNet ==> Net(spend, iset{Some(id)}) == 0
    ensures budgeted == Ids(limits)
    ensures totalLimits == TotalLimits(limits) && totalRemaining == TotalLeft(categories)
    ensures AreMeasured(categories, limits, spend, daysLeft)
  {
    hide Net, AreMeasured, TotalLimits, TotalLeft, Ids, PaceFor, RatioOf, IsShare;
    NothingMeasured(spend, daysLeft);
    budgeted, categories, totalLimits, totalRemaining := {}, [], 0, 0;
    for i := 0 to |limits|
      invariant budgeted == Ids(limits[..i])
      invariant totalLimits == TotalLimits(limits[..i]) && totalRemaining == TotalLeft(categories)
      invariant AreMeasured(categories, limits[..i], spend, daysLeft)
    {
      var l := limits[i];
      OneMoreLimit(limits, i);
      budgeted := budgeted + {l.category};
      totalLimits := totalLimits + l.cents;
      var netSpend := if l.category in catNet then catNet[l.category] else 0;
      var remaining := l.cents - netSpend;
      totalRemaining := totalRemaining + remaining;
      var standing := Standing(l.category, l.cents, netSpend, remaining, PaceFor(remaining, daysLeft),
                               netSpend > l.cents,
                               RatioOf(netSpend, l.cents));
      OneMoreMeasured(categories, limits, spend, daysLeft, i, standing);
      categories := categories + [standing];
    }
    assert limits[..|limits|] == limits;
  }

  lemma NothingMeasured(spend: seq<Spend>, daysLeft: int)
    ensures AreMeasured([], [], spend, daysLeft) && TotalLimits([]) == 0 && TotalLeft([]) == 0 && Ids([]) == {}
  {
  }

  lemma OneMoreMeasured(categories: seq<Standing>, limits: seq<Limit>, spend: seq<Spend>, daysLeft: int, i: nat,
                        standing: Standing)
    requires i < |limits| && AreMeasured(categories, limits[..i], spend, daysLeft)
    requires IsMeasured(standing, limits[i], spend, daysLeft)
    ensures AreMeasured(categories + [standing], limits[..i + 1], spend, daysLeft)
    ensures TotalLeft(categories + [standing]) == TotalLeft(categories) + standing.remaining
  {
    hide Net, IsMeasured;
    assert (categories + [standing])[..|categories|] == categories;
    assert forall j :: 0 <= j < i ==> limits[..i + 1][j] == limits[..i][j];
  }

  lemma OneMoreLimit(limits: seq<Limit>, i: nat)
    requires i < |limits|
    ensures Ids(limits[..i + 1]) == Ids(limits[..i]) + {limits[i].category}
    ensures TotalLimits(limits[..i + 1]) == TotalLimits(limits[..i]) + limits[i].cents
  {
    assert limits[..i + 1][..i] == limits[..i];
    assert forall j :: 0 <= j < i ==> limits[..i + 1][j] == limits[..i][j];
    assert limits[..i + 1][i] == limits[i];
  }

  /** The loop over the summed categories, in whatever order the map yields them. */
  method SumUnbudgeted(catNet: NetByCategory, budgeted: set<string>, ghost spend: seq<Spend>) returns (unbudgeted: int)
    requires forall id :: id in catNet ==> catNet[id] == Net(spend, iset{Some(id)})
    ensures unbudgeted == Net(spend, Those(catNet.Keys - budgeted))
  {
    hide Net, Those;
    unbudgeted := 0;
    ghost var done: set<string> := {};
    NoIdsNoSpend(spend);
    var rest := catNet.Keys;
    while rest != {}
      invariant rest <= catNet.Keys && done == (catNet.Keys - rest) - budgeted
      invariant unbudgeted == Net(spend, Those(done))
      decreases |rest|
    {
      var id :| id in rest;
      rest := rest - {id};
      if id !in budgeted {
        OneMoreId(spend, done, id);
        done := done + {id};
        unbudgeted := unbudgeted + catNet[id];
      }
    }
    assert done == catNet.Keys - budgeted;
  }

  lemma NoIdsNoSpend(spend: seq<Spend>)
    ensures Net(spend, Those({})) == 0
  {
    hide Net;
    UnspentCategoriesAreZero(spend, Those({}));
  }

  /** Unbudgeted and uncategorized together are everything no limit covers. */
  lemma ResidualIsTheRest(spend: seq<Spend>, keys: set<string>, budgeted: set<string>)
    requires forall i :: 0 <= i < |spend| && spend[i].category.Some? ==> spend[i].category.value in keys
    ensures Net(spend, Those(keys - budgeted)) + Net(spend, iset{None}) == Net(spend, AllBut(budgeted))
  {
    hide Net;
    var spent := Those(keys - budgeted) + iset{None};
    var unspent := AllBut(budgeted) - spent;
    DisjointNetsAdd(spend, Those(keys - budgeted), iset{None});
    DisjointNetsAdd(spend, spent, unspent);
    UnspentCategoriesAreZero(spend, unspent);
    assert spent + unspent == AllBut(budgeted);
  }

  /** BuildTracker. */
  method BuildTracker(budget: Option<Budget>, spend: seq<Spend>, income: int, savings: int, daysLeft: int)
    returns (view: View)
    ensures view.totalSpend == Net(spend, EVERY) && view.income == income && view.savings == savings
    ensures view.plan.Some? <==> IsSet(budget)
    ensures view.plan.Some? ==> IsPlanFor(view.plan.value, budget.value, spend, income, savings, daysLeft)
  {
    hide Net, Those, AllBut, TotalLimits, TotalLeft, PaceFor, RatioOf, ProgressFor, IsShare;
    var catNet, uncategorized, totalSpend := SumSpend(spend);
    if IsEmpty(budget) {
      return View(None, totalSpend, income, savings);
    }
    var b := budget.value;
    var budgeted, categories, totalLimits, totalRemaining := MeasureLimits(b.limits, catNet, daysLeft, spend);
    var unbudgeted := SumUnbudgeted(catNet, budgeted, spend);
    ResidualIsTheRest(spend, catNet.Keys, budgeted);
    var residual := b.income - totalLimits - b.savings;
    var residualSpend := unbudgeted + uncategorized;
    var everythingElse := residual - residualSpend;
    totalRemaining := totalRemaining + everythingElse;
    var totalBudget := b.income - b.savings;
    var plan := Plan(categories, totalRemaining, totalBudget, PaceFor(totalRemaining, daysLeft),
                     RatioOf(totalSpend, totalBudget),
                     residual, residualSpend, everythingElse, PaceFor(everythingElse, daysLeft),
                     residualSpend > residual,
                     RatioOf(residualSpend, residual), ProgressFor(income, b.income), ProgressFor(savings, b.savings));
    view := View(Some(plan), totalSpend, income, savings);
  }

  // ---------------------------------------------------------- conservation

  predicate AreDistinct(limits: seq<Limit>) {
    forall i, j :: 0 <= i < j < |limits| ==> limits[i].category != limits[j].category
  }

  /** The spending that a second limit on the same category measures again. */
  ghost function CountedAgain(limits: seq<Limit>, spend: seq<Spend>): int {
    if limits == [] then 0
    else
      var front, last := limits[..|limits| - 1], limits[|limits| - 1];
      CountedAgain(front, spend) + if last.category in Ids(front) then Net(spend, iset{Some(last.category)}) else 0
  }

  lemma {:induction false} LimitsLessSpending(p: seq<Standing>, limits: seq<Limit>, spend: seq<Spend>, daysLeft: int)
    requires AreMeasured(p, limits, spend, daysLeft)
    ensures TotalLeft(p) == TotalLimits(limits) - Net(spend, Those(Ids(limits))) - CountedAgain(limits, spend)
  {
    hide Net, Those, PaceFor, IsShare;
    if limits == [] {
      NoIdsNoSpend(spend);
      assert Ids(limits) == {};
    } else {
      var n := |limits| - 1;
      var id := limits[n].category;
      LimitsLessSpending(p[..n], limits[..n], spend, daysLeft);
      OneMoreLimit(limits, n);
      assert limits[..n + 1] == limits;
      if id in Ids(limits[..n]) {
        assert Ids(limits) == Ids(limits[..n]);
      } else {
        OneMoreId(spend, Ids(limits[..n]), id);
      }
    }
  }

  /**
   Conservation: what remains over all rows is the plan less the whole month's spending, and less
   whatever a repeated limit counts again.
   */
  lemma RemainingIsPlanLessSpending(p: Plan, b: Budget, spend: seq<Spend>, income: int, savings: int, daysLeft: int)
    requires IsPlanFor(p, b, spend, income, savings, daysLeft)
    ensures p.totalRemaining == b.income - b.savings - Net(spend, EVERY) - CountedAgain(b.limits, spend)
  {
    hide Net, Those, AllBut, PaceFor, IsShare;
    LimitsLessSpending(p.categories, b.limits, spend, daysLeft);
    CoveredAndLeftOut(spend, Ids(b.limits));
  }

  lemma {:induction false} DistinctLimitsCountOnce(limits: seq<Limit>, spend: seq<Spend>)
    requires AreDistinct(limits)
    ensures CountedAgain(limits, spend) == 0
  {
    hide Net;
    if limits != [] {
      DistinctLimitsCountOnce(limits[..|limits| - 1], spend);
    }
  }

  /** With at most one limit a category, nothing is counted twice. */
  lemma DistinctLimitsConserve(p: Plan, b: Budget, spend: seq<Spend>, income: int, savings: int, daysLeft: int)
    requires IsPlanFor(p, b, spend, income, savings, daysLeft) && AreDistinct(b.limits)
    ensures TotalLeft(p.categories) + p.elseRemaining == b.income - b.savings - Net(spend, EVERY)
  {
    hide Net, TotalLeft, CountedAgain;
    RemainingIsPlanLessSpending(p, b, spend, income, savings, daysLeft);
    DistinctLimitsCountOnce(b.limits, spend);
  }
}
