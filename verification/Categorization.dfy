/**
 The categorization engine (src/internal/categorization/categorization.go): rules by merchant
 substring, then the bank's category, then the direction of the money.
 */
module Categorization {
  import opened Common
  import opened Calendar
  import opened StableSort
  import opened Text

  /** Unclassified is the column default of a row no pass has resolved yet. */
  datatype Classification = Unclassified | Income | Spending | Transfer | NeedsReview

  datatype Rule = Rule(id: string, substring: string, classification: Classification, category: Option<string>,
                       updatedAt: Instant)

  datatype Verdict = Verdict(classification: Classification, category: Option<string>)

  // ---------------------------------------------------------------- rules

  /** The case-insensitive substring test of the rule step. */
  predicate ContainsFolded(merchant: string, substring: string) {
    Contains(ToLower(merchant), ToLower(substring))
  }

  /** A rule that applies: a non-empty substring of the merchant, and no archived target. */
  predicate Applies(r: Rule, merchant: string, archived: set<string>) {
    && r.substring != ""
    && ContainsFolded(merchant, r.substring)
    && !(r.classification.Spending? && r.category.Some? && r.category.value in archived)
  }

  function Applicable(merchant: string, rules: seq<Rule>, archived: set<string>): seq<Rule> {
    if rules == [] then []
    else Applicable(merchant, rules[..|rules| - 1], archived)
         + (if Applies(rules[|rules| - 1], merchant, archived) then [rules[|rules| - 1]] else [])
  }

  /** rulePreferred as a sort key: longer first, then later edited. */
  function RuleKey(r: Rule): Key {
    Key(-|r.substring|, -r.updatedAt)
  }

  /** matchingRulesBestFirst: collect what applies, then sort in place. */
  method MatchingRulesBestFirst(merchant: string, rules: seq<Rule>, archived: set<string>) returns (matches: seq<Rule>)
    ensures matches == Sorted(Applicable(merchant, rules, archived), RuleKey)
  {
    hide Applies, Sorted;
    matches := [];
    for i := 0 to |rules|
      invariant matches == Applicable(merchant, rules[..i], archived)
    {
      assert rules[..i + 1][..i] == rules[..i];
      if !Applies(rules[i], merchant, archived) {
        continue;
      }
      matches := matches + [rules[i]];
    }
    assert rules[..|rules|] == rules;
    if matches != [] {
      var a := new Rule[|matches|](i requires 0 <= i < |matches| => matches[i]);
      assert a[..] == matches;
      SliceStable(a, RuleKey);
      matches := a[..];
    } else {
      SortedEmpty();
    }
  }

  lemma SortedEmpty()
    ensures Sorted([], RuleKey) == []
  {
  }

  // The rules table and its listing.

  type Rules = map<string, Rule>

  ghost predicate KeyedByID(rules: Rules) {
    forall id :: id in rules ==> rules[id].id == id
  }

  /** ORDER BY updated_at DESC, id DESC. */
  predicate ListedBefore(a: Rule, b: Rule) {
    a.updatedAt > b.updatedAt || (a.updatedAt == b.updatedAt && a.id != b.id && TextAtMost(b.id, a.id))
  }

  /** A listing of the table: every rule once, in that order. */
  ghost predicate IsListing(list: seq<Rule>, rules: Rules) {
    && (forall i :: 0 <= i < |list| ==> list[i].id in rules && rules[list[i].id] == list[i])
    && (forall id :: id in rules ==> rules[id] in list)
    && (forall i, j :: 0 <= i < j < |list| ==> ListedBefore(list[i], list[j]))
  }

  lemma ListedBeforeIsTotal(a: Rule, b: Rule)
    ensures a.id != b.id ==> ListedBefore(a, b) || ListedBefore(b, a)
  {
    TextOrderIsTotal(a.id, b.id);
  }

  lemma ListedBeforeIsTransitive(a: Rule, b: Rule, c: Rule)
    requires ListedBefore(a, b) && ListedBefore(b, c)
    ensures ListedBefore(a, c)
  {
    hide TextAtMost;
    if a.updatedAt == b.updatedAt == c.updatedAt {
      TextOrderIsTransitive(c.id, b.id, a.id);
      if a.id == c.id {
        TextOrderIsTotal(a.id, b.id);
        assert false;
      }
    }
  }

  /** a takes precedence over b: longer, then later edited, then the greater id. */
  predicate TakesPrecedence(a: Rule, b: Rule) {
    || |a.substring| > |b.substring|
    || (|a.substring| == |b.substring| && ListedBefore(a, b))
  }

  /** The one rule of the table that applies and takes precedence over every other that does. */
  ghost predicate IsWinner(r: Rule, rules: Rules, merchant: string, archived: set<string>) {
    && r.id in rules && rules[r.id] == r && Applies(r, merchant, archived)
    && forall id :: id in rules && id != r.id && Applies(rules[id], merchant, archived) ==>
       TakesPrecedence(r, rules[id])
  }

  lemma {:induction false} ApplicableIsExact(merchant: string, rules: seq<Rule>, archived: set<string>)
    ensures forall r :: r in Applicable(merchant, rules, archived) <==> r in rules && Applies(r, merchant, archived)
  {
    hide Applies;
    if rules != [] {
      ApplicableIsExact(merchant, rules[..|rules| - 1], archived);
      assert rules == rules[..|rules| - 1] + [rules[|rules| - 1]];
    }
  }

  ghost predicate InListingOrder(list: seq<Rule>) {
    forall i, j :: 0 <= i < j < |list| ==> ListedBefore(list[i], list[j])
  }

  lemma {:induction false} ApplicableKeepsOrder(merchant: string, rules: seq<Rule>, archived: set<string>)
    requires InListingOrder(rules)
    ensures InListingOrder(Applicable(merchant, rules, archived))
  {
    hide Applies, ListedBefore;
    if rules != [] {
      var n := |rules| - 1;
      ApplicableKeepsOrder(merchant, rules[..n], archived);
      ApplicableIsExact(merchant, rules[..n], archived);
      var s := Applicable(merchant, rules[..n], archived);
      forall i | 0 <= i < |s| ensures ListedBefore(s[i], rules[n]) {
        assert s[i] in rules[..n];
      }
    }
  }

  lemma {:induction false} WithKeyKeepsOrder(s: seq<Rule>, k: Key)
    requires InListingOrder(s)
    ensures InListingOrder(WithKey(s, RuleKey, k))
    ensures forall r :: r in WithKey(s, RuleKey, k) <==> r in s && RuleKey(r) == k
  {
    hide RuleKey, ListedBefore;
    if s != [] {
      var n := |s| - 1;
      WithKeyKeepsOrder(s[..n], k);
      assert s == s[..n] + [s[n]];
      var w := WithKey(s[..n], RuleKey, k);
      forall i | 0 <= i < |w| ensures ListedBefore(w[i], s[n]) {
        assert w[i] in s[..n];
      }
    }
  }

  /** The front of a stably sorted sequence is the front of its own key's elements. */
  lemma {:induction false} FrontIsFirstOfItsKey(s: seq<Rule>)
    requires s != []
    ensures var w := WithKey(s, RuleKey, RuleKey(s[0])); w != [] && w[0] == s[0]
  {
    hide RuleKey;
    if |s| > 1 {
      FrontIsFirstOfItsKey(s[..|s| - 1]);
    }
  }

  /** The first match, from any listing of the table, is the rule that takes precedence over all others. */
  lemma FirstMatchIsWinner(list: seq<Rule>, rules: Rules, merchant: string, archived: set<string>)
    requires KeyedByID(rules) && IsListing(list, rules)
    ensures var matches := Sorted(Applicable(merchant, list, archived), RuleKey);
            && (matches == [] <==> forall id :: id in rules ==> !Applies(rules[id], merchant, archived))
            && (matches != [] ==> IsWinner(matches[0], rules, merchant, archived))
  {
    hide Applies, Sorted, WithKey, ListedBefore, Applicable;
    var applicable := Applicable(merchant, list, archived);
    var matches := Sorted(applicable, RuleKey);
    ApplicableIsExact(merchant, list, archived);
    SortedIsOrdered(applicable, RuleKey);
    assert forall r :: r in matches <==> r in multiset(applicable);
    if matches != [] {
      var first := matches[0];
      assert first in matches && first in list;
      ApplicableKeepsOrder(merchant, list, archived);
      FrontIsFirstOfItsKey(matches);
      SortedIsStable(applicable, RuleKey, RuleKey(first));
      WithKeyKeepsOrder(applicable, RuleKey(first));
      forall id | id in rules && id != first.id && Applies(rules[id], merchant, archived)
        ensures TakesPrecedence(first, rules[id])
      {
        assert rules[id] in matches;
        FirstTakesPrecedence(applicable, matches, rules[id]);
      }
    } else {
      forall id | id in rules ensures !Applies(rules[id], merchant, archived) {
        assert rules[id] in list;
      }
    }
  }

  lemma FirstTakesPrecedence(applicable: seq<Rule>, matches: seq<Rule>, other: Rule)
    requires matches != [] && Ordered(matches, RuleKey) && other in matches && other in applicable
             && other != matches[0]
    requires var k := RuleKey(matches[0]);
             var w := WithKey(applicable, RuleKey, k);
             && WithKey(matches, RuleKey, k) == w
             && InListingOrder(w) && (forall r :: r in w <==> r in applicable && RuleKey(r) == k)
             && w != [] && w[0] == matches[0]
    ensures TakesPrecedence(matches[0], other)
  {
    hide WithKey;
    var first := matches[0];
    var j :| 0 < j < |matches| && matches[j] == other;
    assert !Before(RuleKey(other), RuleKey(first));
    if RuleKey(other) == RuleKey(first) {
      var w := WithKey(applicable, RuleKey, RuleKey(first));
      var i :| 0 <= i < |w| && w[i] == other;
      assert ListedBefore(w[0], w[i]);
    }
  }

  // ------------------------------------------- the winner, in plain terms

  /** The rule's text stands in the merchant, in any case, and the category it spends on is not archived. */
  ghost predicate Reaches(r: Rule, merchant: string, archived: set<string>) {
    && r.substring != "" && Reads(merchant, r.substring)
    && (r.classification.Spending? && r.category.Some? ==> r.category.value !in archived)
  }

  lemma AppliesIsReaching(r: Rule, merchant: string, archived: set<string>)
    ensures Applies(r, merchant, archived) <==> Reaches(r, merchant, archived)
  {
    hide Contains, Reads, ToLower;
    ContainsReads(merchant, r.substring);
  }

  /** The rule that reaches the merchant with the longest text; of those the latest edited; of those the greatest id. */
  ghost predicate Governs(r: Rule, rules: Rules, merchant: string, archived: set<string>) {
    && r.id in rules && rules[r.id] == r && Reaches(r, merchant, archived)
    && forall id :: id in rules && id != r.id && Reaches(rules[id], merchant, archived) ==>
         var other := rules[id];
         && |r.substring| >= |other.substring|
         && (|r.substring| == |other.substring| ==> r.updatedAt >= other.updatedAt)
         && (|r.substring| == |other.substring| && r.updatedAt == other.updatedAt ==> TextAtMost(id, r.id))
  }

  lemma WinnerGoverns(r: Rule, rules: Rules, merchant: string, archived: set<string>)
    requires KeyedByID(rules)
    ensures IsWinner(r, rules, merchant, archived) <==> Governs(r, rules, merchant, archived)
  {
    hide Applies, Reaches, TextAtMost;
    AppliesIsReaching(r, merchant, archived);
    forall id | id in rules ensures Applies(rules[id], merchant, archived) <==> Reaches(rules[id], merchant, archived) {
      AppliesIsReaching(rules[id], merchant, archived);
    }
  }

  /** The same in a listing, where the earliest listed comes first among equals. */
  ghost predicate Leads(list: seq<Rule>, i: int, merchant: string, archived: set<string>) {
    && 0 <= i < |list| && Reaches(list[i], merchant, archived)
    && forall j :: 0 <= j < |list| && j != i && Reaches(list[j], merchant, archived) ==>
         && |list[i].substring| >= |list[j].substring|
         && (|list[i].substring| == |list[j].substring| ==> list[i].updatedAt >= list[j].updatedAt)
         && (|list[i].substring| == |list[j].substring| && list[i].updatedAt == list[j].updatedAt ==> i < j)
  }

  ghost predicate ReachedByNone(list: seq<Rule>, merchant: string, archived: set<string>) {
    forall i :: 0 <= i < |list| ==> !Reaches(list[i], merchant, archived)
  }

  /** The first of a key's applicable rules is the first listed. */
  lemma {:induction false} FirstOfAKey(list: seq<Rule>, merchant: string, archived: set<string>, k: Key)
    returns (i: nat)
    requires WithKey(Applicable(merchant, list, archived), RuleKey, k) != []
    ensures i < |list| && list[i] == WithKey(Applicable(merchant, list, archived), RuleKey, k)[0]
    ensures Applies(list[i], merchant, archived) && RuleKey(list[i]) == k
    ensures forall j :: 0 <= j < i && Applies(list[j], merchant, archived) ==> RuleKey(list[j]) != k
  {
    hide Applies, RuleKey, WithKey;
    var n := |list| - 1;
    NoneOfAKey([], k);
    var front := Applicable(merchant, list[..n], archived);
    if Applies(list[n], merchant, archived) {
      OneMoreOfAKey(front, list[n], k);
    } else {
      assert front + [] == front;
    }
    if WithKey(front, RuleKey, k) != [] {
      i := FirstOfAKey(list[..n], merchant, archived, k);
    } else {
      i := n;
      ApplicableIsExact(merchant, list[..n], archived);
      NoneOfAKey(front, k);
      forall j | 0 <= j < n && Applies(list[j], merchant, archived) ensures RuleKey(list[j]) != k {
        assert list[..n][j] in front;
      }
    }
  }

  lemma OneMoreOfAKey(s: seq<Rule>, r: Rule, k: Key)
    ensures WithKey(s + [r], RuleKey, k) == WithKey(s, RuleKey, k) + if RuleKey(r) == k then [r] else []
  {
    hide RuleKey;
    assert (s + [r])[..|s|] == s;
  }

  lemma {:induction false} NoneOfAKey(s: seq<Rule>, k: Key)
    ensures WithKey(s, RuleKey, k) == [] <==> forall r :: r in s ==> RuleKey(r) != k
  {
    hide RuleKey;
    if s != [] {
      NoneOfAKey(s[..|s| - 1], k);
      assert s == s[..|s| - 1] + [s[|s| - 1]];
    }
  }

  /** The first match of a listing is the rule that leads it, and none leads exactly when none reaches the merchant. */
  lemma FirstMatchLeads(list: seq<Rule>, merchant: string, archived: set<string>) returns (i: int)
    ensures var matches := Sorted(Applicable(merchant, list, archived), RuleKey);
            && (matches == [] <==> ReachedByNone(list, merchant, archived))
            && (matches != [] ==> Leads(list, i, merchant, archived) && list[i] == matches[0])
    ensures ReachedByNone(list, merchant, archived) ==> forall j :: !Leads(list, j, merchant, archived)
  {
    hide Applies, Reaches, Sorted, WithKey, Applicable;
    var applicable := Applicable(merchant, list, archived);
    var matches := Sorted(applicable, RuleKey);
    i := -1;
    ApplicableIsExact(merchant, list, archived);
    SortedIsOrdered(applicable, RuleKey);
    assert forall r :: r in matches <==> r in multiset(applicable);
    forall j | 0 <= j < |list|
      ensures Reaches(list[j], merchant, archived) <==> list[j] in matches
    {
      AppliesIsReaching(list[j], merchant, archived);
    }
    if matches == [] {
    } else {
      var k := RuleKey(matches[0]);
      FrontIsFirstOfItsKey(matches);
      SortedIsStable(applicable, RuleKey, k);
      i := FirstOfAKey(list, merchant, archived, k);
      forall r | r in matches ensures !Before(RuleKey(r), k) {
      }
      AppliesIsReaching(list[i], merchant, archived);
    }
  }

  /** Only one rule of a listing leads it. */
  lemma OnlyOneLeads(list: seq<Rule>, merchant: string, archived: set<string>, i: int, j: int)
    requires Leads(list, i, merchant, archived) && Leads(list, j, merchant, archived)
    ensures i == j
  {
    hide Reaches;
  }

  // ------------------------------------------------------------ the engine

  /** decisionFromRule: the category goes along only with spending. */
  function FromRule(r: Rule): Verdict {
    Verdict(r.classification, if r.classification.Spending? then r.category else None)
  }

  const SpendingCategories: map<string, string> := map[
    "BANK_FEES" := "bank_fees", "ENTERTAINMENT" := "entertainment", "FOOD_AND_DRINK" := "food_and_drink",
    "GENERAL_MERCHANDISE" := "general_merchandise", "HOME_IMPROVEMENT" := "home_improvement",
    "MEDICAL" := "medical", "PERSONAL_CARE" := "personal_care", "GENERAL_SERVICES" := "general_services",
    "GOVERNMENT_AND_NON_PROFIT" := "government_and_non_profit", "TRANSPORTATION" := "transportation",
    "TRAVEL" := "travel", "RENT_AND_UTILITIES" := "rent_and_utilities"]

  /** resolveBankCategory: transfer signals, income, then the mapped category unless it is archived. */
  function FromBankCategory(bankPrimary: string, archived: set<string>): Option<Verdict> {
    var primary := ToUpper(TrimSpace(bankPrimary));
    if primary in {"TRANSFER_IN", "TRANSFER_OUT", "LOAN_PAYMENTS"} then Some(Verdict(Transfer, None))
    else if primary == "INCOME" then Some(Verdict(Income, None))
    else if primary in SpendingCategories && SpendingCategories[primary] !in archived then
      Some(Verdict(Spending, Some(SpendingCategories[primary])))
    else None
  }

  /** The ids of the built-in spending categories (db/migrations/20260614230000_categories.sql). */
  const SEEDED: set<string> := {
    "food_and_drink", "general_merchandise", "transportation", "travel", "rent_and_utilities", "medical",
    "personal_care", "general_services", "entertainment", "home_improvement", "bank_fees",
    "government_and_non_profit"}

  lemma GovernmentInCapitals()
    ensures ToUpper("government_and_non_profit") == "GOVERNMENT_AND_NON_PROFIT"
  {
  }

  lemma MerchandiseInCapitals()
    ensures ToUpper("general_merchandise") == "GENERAL_MERCHANDISE"
  {
  }

  lemma RentInCapitals()
    ensures ToUpper("rent_and_utilities") == "RENT_AND_UTILITIES"
  {
  }

  lemma ServicesInCapitals()
    ensures ToUpper("general_services") == "GENERAL_SERVICES"
  {
  }

  lemma HomeInCapitals()
    ensures ToUpper("home_improvement") == "HOME_IMPROVEMENT"
  {
  }

  lemma FoodAndFunInCapitals()
    ensures ToUpper("food_and_drink") == "FOOD_AND_DRINK"
    ensures ToUpper("entertainment") == "ENTERTAINMENT"
  {
  }

  lemma RidesAndFeesInCapitals()
    ensures ToUpper("transportation") == "TRANSPORTATION"
    ensures ToUpper("bank_fees") == "BANK_FEES"
  {
  }

  lemma CareAndTravelInCapitals()
    ensures ToUpper("personal_care") == "PERSONAL_CARE"
    ensures ToUpper("medical") == "MEDICAL"
    ensures ToUpper("travel") == "TRAVEL"
  {
  }

  /** The map and the seed are in step: each primary names the seeded category of its own name in lower case. */
  lemma PrimariesNameTheSeeded()
    ensures forall primary :: primary in SpendingCategories ==>
              SpendingCategories[primary] in SEEDED && ToUpper(SpendingCategories[primary]) == primary
  {
    hide ToUpper;
    GovernmentInCapitals();
    MerchandiseInCapitals();
    RentInCapitals();
    ServicesInCapitals();
    HomeInCapitals();
    FoodAndFunInCapitals();
    RidesAndFeesInCapitals();
    CareAndTravelInCapitals();
  }

  lemma SeededIsNamed(c: string)
    requires c in SEEDED
    ensures ToUpper(c) in SpendingCategories && SpendingCategories[ToUpper(c)] == c
  {
    hide ToUpper;
    GovernmentInCapitals();
    MerchandiseInCapitals();
    RentInCapitals();
    ServicesInCapitals();
    HomeInCapitals();
    FoodAndFunInCapitals();
    RidesAndFeesInCapitals();
    CareAndTravelInCapitals();
  }

  /** Steps 3 and 4 of the precedence. */
  function WithoutRules(bankPrimary: string, amount: real, archived: set<string>): Verdict {
    var fromBank := FromBankCategory(bankPrimary, archived);
    if fromBank.Some? then fromBank.value
    else if amount > 0.0 then Verdict(Spending, None)
    else Verdict(NeedsReview, None)
  }

  /** The bank's category reads one of the names, in any case and behind any spaces. */
  predicate BankSays(bankPrimary: string, names: set<string>) {
    exists name :: name in names && SameText(TrimSpace(bankPrimary), name)
  }

  /**
   The verdict where no rule reaches: the bank's transfer signals and its income, then the live
   built-in category its primary reads as, then the direction.
   */
  ghost predicate IsByTheBank(v: Verdict, bankPrimary: string, amount: real, archived: set<string>) {
    if BankSays(bankPrimary, {"TRANSFER_IN", "TRANSFER_OUT", "LOAN_PAYMENTS"}) then v == Verdict(Transfer, None)
    else if BankSays(bankPrimary, {"INCOME"}) then v == Verdict(Income, None)
    else if BankSays(bankPrimary, SEEDED - archived) then
      && v.classification.Spending? && v.category.Some? && v.category.value in SEEDED - archived
      && BankSays(bankPrimary, {v.category.value})
    else if amount > 0.0 then v == Verdict(Spending, None)
    else v == Verdict(NeedsReview, None)
  }

  /** The upper-cased primary is a name in capitals exactly when it reads it. */
  lemma PrimaryIs(bankPrimary: string, name: string)
    ensures ToUpper(TrimSpace(bankPrimary)) == ToUpper(name) <==> SameText(TrimSpace(bankPrimary), name)
  {
    hide ToUpper, TrimSpace, SameText;
    FoldingComparesTexts(TrimSpace(bankPrimary), name);
  }

  lemma SignalsAreCapitals()
    ensures ToUpper("TRANSFER_IN") == "TRANSFER_IN" && ToUpper("TRANSFER_OUT") == "TRANSFER_OUT"
    ensures ToUpper("LOAN_PAYMENTS") == "LOAN_PAYMENTS" && ToUpper("INCOME") == "INCOME"
  {
  }

  lemma BankSaysCapitals(bankPrimary: string, names: set<string>)
    ensures BankSays(bankPrimary, names) <==>
            ToUpper(TrimSpace(bankPrimary)) in set name | name in names :: ToUpper(name)
  {
    hide ToUpper, TrimSpace, SameText;
    forall name | name in names
      ensures ToUpper(TrimSpace(bankPrimary)) == ToUpper(name) <==> SameText(TrimSpace(bankPrimary), name)
    {
      PrimaryIs(bankPrimary, name);
    }
  }

  lemma WithoutRulesIsByTheBank(bankPrimary: string, amount: real, archived: set<string>)
    ensures IsByTheBank(WithoutRules(bankPrimary, amount, archived), bankPrimary, amount, archived)
  {
    hide ToUpper, TrimSpace, BankSays;
    var primary := ToUpper(TrimSpace(bankPrimary));
    SignalsAreCapitals();
    PrimariesNameTheSeeded();
    forall c | c in SEEDED ensures ToUpper(c) in SpendingCategories && SpendingCategories[ToUpper(c)] == c {
      SeededIsNamed(c);
    }
    var signals := {"TRANSFER_IN", "TRANSFER_OUT", "LOAN_PAYMENTS"};
    BankSaysCapitals(bankPrimary, signals);
    BankSaysCapitals(bankPrimary, {"INCOME"});
    BankSaysCapitals(bankPrimary, SEEDED - archived);
    assert BankSays(bankPrimary, signals) <==> primary in signals;
    assert BankSays(bankPrimary, {"INCOME"}) <==> primary == "INCOME";
    if primary in SpendingCategories {
      BankSaysCapitals(bankPrimary, {SpendingCategories[primary]});
    }
  }

  /** ResolveCategorization over a listing: override, first matching rule, bank category, direction. */
  method ResolveCategorization(override: Option<Verdict>, merchant: string, list: seq<Rule>, archived: set<string>,
                               bankPrimary: string, amount: real) returns (verdict: Verdict)
    ensures override.Some? ==> verdict == override.value
    ensures override.None? ==>
              var matches := Sorted(Applicable(merchant, list, archived), RuleKey);
              verdict == if matches != [] then FromRule(matches[0]) else WithoutRules(bankPrimary, amount, archived)
    ensures override.None? ==> forall i :: Leads(list, i, merchant, archived) ==>
              && verdict.classification == list[i].classification
              && verdict.category == if list[i].classification.Spending? then list[i].category else None
    ensures override.None? && ReachedByNone(list, merchant, archived) ==>
              IsByTheBank(verdict, bankPrimary, amount, archived)
    ensures ReachedByNone(list, merchant, archived) || exists i :: Leads(list, i, merchant, archived)
  {
    hide Applicable, Leads, ReachedByNone, IsByTheBank, ToUpper, TrimSpace;
    ghost var first := FirstMatchLeads(list, merchant, archived);
    forall i | Leads(list, i, merchant, archived) && Leads(list, first, merchant, archived) ensures i == first {
      OnlyOneLeads(list, merchant, archived, i, first);
    }
    WithoutRulesIsByTheBank(bankPrimary, amount, archived);
    if override.Some? {
      return override.value;
    }
    var matches := MatchingRulesBestFirst(merchant, list, archived);
    if |matches| > 0 {
      return FromRule(matches[0]);
    }
    var fromBank := FromBankCategory(bankPrimary, archived);
    if fromBank.Some? {
      return fromBank.value;
    }
    if amount > 0.0 {
      return Verdict(Spending, None);
    }
    verdict := Verdict(NeedsReview, None);
  }

  /** The engine's verdict from the table alone: no listing, no order. */
  ghost function Resolve(rules: Rules, archived: set<string>, merchant: string, bankPrimary: string,
                         amount: real): Verdict
  {
    if exists r :: IsWinner(r, rules, merchant, archived) then
      var r :| IsWinner(r, rules, merchant, archived);
      FromRule(r)
    else WithoutRules(bankPrimary, amount, archived)
  }

  /** Unless no rule applies, one of them takes precedence over the others. */
  lemma {:induction false} SomeRuleWins(rules: Rules, merchant: string, archived: set<string>)
    requires KeyedByID(rules)
    ensures || (exists r :: IsWinner(r, rules, merchant, archived))
            || forall id :: id in rules ==> !Applies(rules[id], merchant, archived)
    decreases |rules|
  {
    hide Applies, ListedBefore;
    if rules != map[] {
      var id :| id in rules;
      var rest := rules - {id};
      assert |rest.Keys| < |rules.Keys| && forall x :: x in rules && x != id ==> x in rest && rest[x] == rules[x];
      SomeRuleWins(rest, merchant, archived);
      if r :| IsWinner(r, rest, merchant, archived) {
        WinnerAgainstOneMore(r, rules, id, merchant, archived);
      } else if Applies(rules[id], merchant, archived) {
        assert IsWinner(rules[id], rules, merchant, archived);
      }
    }
  }

  lemma WinnerAgainstOneMore(r: Rule, rules: Rules, id: string, merchant: string, archived: set<string>)
    requires KeyedByID(rules) && id in rules && IsWinner(r, rules - {id}, merchant, archived)
    ensures exists s :: IsWinner(s, rules, merchant, archived)
  {
    hide Applies, ListedBefore;
    assert forall x :: x in rules && x != id ==> x in rules - {id} && (rules - {id})[x] == rules[x];
    ListedBeforeIsTotal(r, rules[id]);
    if Applies(rules[id], merchant, archived) && !TakesPrecedence(r, rules[id]) {
      forall other | other in rules && other != id && Applies(rules[other], merchant, archived)
        ensures TakesPrecedence(rules[id], rules[other])
      {
        if other != r.id && |r.substring| == |rules[id].substring| == |rules[other].substring| {
          ListedBeforeIsTransitive(rules[id], r, rules[other]);
        }
      }
      assert IsWinner(rules[id], rules, merchant, archived);
    } else {
      assert IsWinner(r, rules, merchant, archived);
    }
  }

  lemma WinnerDecides(r: Rule, rules: Rules, archived: set<string>, merchant: string, bankPrimary: string, amount: real)
    requires IsWinner(r, rules, merchant, archived)
    ensures Resolve(rules, archived, merchant, bankPrimary, amount) == FromRule(r)
  {
    hide Applies, TextAtMost;
    forall s | IsWinner(s, rules, merchant, archived) ensures s == r {
      if s.id != r.id {
        assert TakesPrecedence(r, rules[s.id]) && TakesPrecedence(s, rules[r.id]);
        TextOrderIsTotal(r.id, s.id);
      }
    }
  }

  /** Whatever listing the database returns, the engine's verdict is the table's. */
  lemma ListingDoesNotMatter(list: seq<Rule>, rules: Rules, archived: set<string>, merchant: string,
                             bankPrimary: string, amount: real)
    requires KeyedByID(rules) && IsListing(list, rules)
    ensures var matches := Sorted(Applicable(merchant, list, archived), RuleKey);
            Resolve(rules, archived, merchant, bankPrimary, amount) ==
            if matches != [] then FromRule(matches[0]) else WithoutRules(bankPrimary, amount, archived)
  {
    hide Applies, Sorted, TakesPrecedence, WithoutRules;
    FirstMatchIsWinner(list, rules, merchant, archived);
    var matches := Sorted(Applicable(merchant, list, archived), RuleKey);
    if matches != [] {
      WinnerDecides(matches[0], rules, archived, merchant, bankPrimary, amount);
    }
  }

  // ------------------------------------------------------ transfer pairing

  datatype TransferLeg = TransferLeg(id: string, account: string, cents: int, date: Date, countsAsSavings: bool)

  datatype Subtype = SavingsContribution | Plain

  predicate Pairs(leg: TransferLeg, source: string, cents: int, date: Date, windowDays: int) {
    leg.account != source && leg.cents == cents && Abs(date - leg.date) <= windowDays
  }

  /** ResolveTransferSubtype: a destination only when exactly one leg pairs. */
  method ResolveTransferSubtype(source: string, cents: int, date: Date, candidates: seq<TransferLeg>, windowDays: int)
    returns (destination: Option<string>, subtype: Subtype)
    ensures destination.Some? <==>
              exists i :: 0 <= i < |candidates| && Pairs(candidates[i], source, cents, date, windowDays)
                          && forall j :: 0 <= j < |candidates| && j != i ==>
                             !Pairs(candidates[j], source, cents, date, windowDays)
    ensures forall i :: 0 <= i < |candidates| && Pairs(candidates[i], source, cents, date, windowDays)
                                     && destination.Some? ==>
              destination.value == candidates[i].account
              && (subtype.SavingsContribution? <==> candidates[i].countsAsSavings)
    ensures destination.None? ==> subtype.Plain?
    ensures destination.Some? ==>
              exists i :: 0 <= i < |candidates| && candidates[i].account == destination.value != source
                          && candidates[i].cents == cents
                          && candidates[i].date - windowDays <= date <= candidates[i].date + windowDays
    ensures destination.None? ==> forall i ::
              0 <= i < |candidates| && candidates[i].account != source && candidates[i].cents == cents
              && candidates[i].date - windowDays <= date <= candidates[i].date + windowDays ==>
              exists j :: 0 <= j < |candidates| && j != i && candidates[j].account != source
                          && candidates[j].cents == cents
                          && candidates[j].date - windowDays <= date <= candidates[j].date + windowDays
  {
    var matches := 0;
    var found := -1;
    ghost var other := -1;
    for i := 0 to |candidates|
      invariant matches == 0 ==> forall j :: 0 <= j < i ==> !Pairs(candidates[j], source, cents, date, windowDays)
      invariant matches >= 0
      invariant matches > 0 ==> 0 <= found < i && Pairs(candidates[found], source, cents, date, windowDays)
      invariant matches == 1 ==> forall j :: 0 <= j < i && j != found ==>
                !Pairs(candidates[j], source, cents, date, windowDays)
      invariant matches > 1 ==> 0 <= other < found && Pairs(candidates[other], source, cents, date, windowDays)
    {
      if !Pairs(candidates[i], source, cents, date, windowDays) {
        continue;
      }
      matches := matches + 1;
      other := found;
      found := i;
    }
    if matches != 1 {
      return None, Plain;
    }
    destination := Some(candidates[found].account);
    subtype := if candidates[found].countsAsSavings then SavingsContribution else Plain;
  }
}
