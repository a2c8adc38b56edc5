/**
 Re-categorization after a rule change (src/internal/categorization/service.go and
 src/internal/transactions/service.go): only the rows that contain the old or the new substring are
 resolved again, which must come to the same as resolving every row again.
 */
module Recategorization {
  import opened Common
  import opened Categorization
  import opened Merchants
  import opened Text
  import opened TransactionTable

  // ------------------------------------------------------------ the two passes

  ghost function ResolveRow(bank: Bank, rules: Rules, archived: set<string>): Verdict {
    Resolve(rules, archived, CleanMerchantName(bank.merchant, bank.counterparty), bank.primary, bank.amount)
  }

  /** What the rule that governs the merchant decides, and where no rule reaches it what the bank says. */
  ghost predicate IsVerdictOn(v: Verdict, bank: Bank, rules: Rules, archived: set<string>) {
    var merchant := CleanMerchantName(bank.merchant, bank.counterparty);
    && (forall r :: Governs(r, rules, merchant, archived) ==>
          && v.classification == r.classification
          && v.category == if r.classification.Spending? then r.category else None)
    && ((forall id :: id in rules ==> !Reaches(rules[id], merchant, archived)) ==>
          IsByTheBank(v, bank.primary, bank.amount, archived))
  }

  /** The engine's verdict is that one, and there is no other. */
  lemma ResolvedIsTheVerdict(v: Verdict, bank: Bank, rules: Rules, archived: set<string>)
    requires KeyedByID(rules)
    ensures v == ResolveRow(bank, rules, archived) <==> IsVerdictOn(v, bank, rules, archived)
  {
    hide CleanMerchantName, Applies, Reaches, IsWinner, Governs, WithoutRules, IsByTheBank;
    var merchant := CleanMerchantName(bank.merchant, bank.counterparty);
    SomeRuleWins(rules, merchant, archived);
    forall r ensures IsWinner(r, rules, merchant, archived) <==> Governs(r, rules, merchant, archived) {
      WinnerGoverns(r, rules, merchant, archived);
    }
    forall r: Rule ensures Applies(r, merchant, archived) <==> Reaches(r, merchant, archived) {
      AppliesIsReaching(r, merchant, archived);
    }
    if r :| IsWinner(r, rules, merchant, archived) {
      WinnerDecides(r, rules, archived, merchant, bank.primary, bank.amount);
      GoverningReaches(r, rules, merchant, archived);
      forall s | Governs(s, rules, merchant, archived) ensures s == r {
        OnlyOneGoverns(r, s, rules, merchant, archived);
      }
    } else {
      NoWinnerFallsThrough(rules, archived, merchant, bank.primary, bank.amount);
      WithoutRulesIsByTheBank(bank.primary, bank.amount, archived);
      if IsByTheBank(v, bank.primary, bank.amount, archived) {
        OnlyOneIsByTheBank(v, WithoutRules(bank.primary, bank.amount, archived), bank.primary, bank.amount, archived);
      }
    }
  }

  lemma GoverningReaches(r: Rule, rules: Rules, merchant: string, archived: set<string>)
    requires Governs(r, rules, merchant, archived)
    ensures r.id in rules && Reaches(rules[r.id], merchant, archived)
  {
    hide Reaches;
  }

  lemma OnlyOneGoverns(r: Rule, s: Rule, rules: Rules, merchant: string, archived: set<string>)
    requires Governs(r, rules, merchant, archived) && Governs(s, rules, merchant, archived)
    ensures r == s
  {
    hide Reaches, TextAtMost;
    TextOrderIsTotal(r.id, s.id);
  }

  /** No two built-in categories read the same. */
  lemma OnlyOneIsByTheBank(v: Verdict, w: Verdict, bankPrimary: string, amount: real, archived: set<string>)
    requires IsByTheBank(v, bankPrimary, amount, archived) && IsByTheBank(w, bankPrimary, amount, archived)
    ensures v == w
  {
    hide TrimSpace, SameText, ToUpper;
    if v != w {
      var (c, d) := (v.category.value, w.category.value);
      PrimaryIs(bankPrimary, c);
      PrimaryIs(bankPrimary, d);
      SeededIsNamed(c);
      SeededIsNamed(d);
    }
  }

  /** A row's verdict is the engine's, unless the user's own verdict stands. */
  ghost predicate Agrees(row: Row, rules: Rules, archived: set<string>) {
    row.facet.overridden || row.facet.verdict == ResolveRow(row.bank, rules, archived)
  }

  ghost predicate AllAgree(t: Table, rules: Rules, archived: set<string>) {
    forall id :: id in t ==> Agrees(t[id], rules, archived)
  }

  /** matchesAnySubstring for one substring: trimmed, blank ones skipped. */
  predicate Touches(cleanMerchant: string, substring: string) {
    TrimSpace(substring) != "" && ContainsFolded(cleanMerchant, TrimSpace(substring))
  }

  predicate TouchesAny(cleanMerchant: string, substrings: seq<string>) {
    exists i :: 0 <= i < |substrings| && Touches(cleanMerchant, substrings[i])
  }

  predicate IsTouched(row: Row, substrings: seq<string>) {
    !row.facet.overridden && TouchesAny(CleanMerchantName(row.bank.merchant, row.bank.counterparty), substrings)
  }

  ghost function Resolved(row: Row, rules: Rules, archived: set<string>): Row {
    WithVerdict(row, ResolveRow(row.bank, rules, archived))
  }

  /** ApplyCategorization: resolve again only the rows a substring touches. */
  ghost function Incremental(t: Table, rules: Rules, archived: set<string>, substrings: seq<string>): Table {
    map id | id in t :: if IsTouched(t[id], substrings) then Resolved(t[id], rules, archived) else t[id]
  }

  /** The same, once the rows in done have been visited. */
  ghost function IncrementalSoFar(t: Table, rules: Rules, archived: set<string>, substrings: seq<string>,
                                  done: set<string>): Table
  {
    map id | id in t :: if id in done && IsTouched(t[id], substrings) then Resolved(t[id], rules, archived) else t[id]
  }

  /** The reference: resolve every row again that the user has not overridden. */
  ghost function Full(t: Table, rules: Rules, archived: set<string>): Table {
    map id | id in t :: if t[id].facet.overridden then t[id] else Resolved(t[id], rules, archived)
  }

  // ----------------------------------------------- the passes, in plain terms

  ghost predicate ReadsOne(merchant: string, substrings: seq<string>) {
    exists i :: 0 <= i < |substrings| && TrimSpace(substrings[i]) != "" && Reads(merchant, TrimSpace(substrings[i]))
  }

  lemma TouchingIsReading(merchant: string, substrings: seq<string>)
    ensures TouchesAny(merchant, substrings) <==> ReadsOne(merchant, substrings)
  {
    hide TrimSpace, Contains, Reads, ToLower;
    forall i | 0 <= i < |substrings|
      ensures Touches(merchant, substrings[i]) <==>
              TrimSpace(substrings[i]) != "" && Reads(merchant, TrimSpace(substrings[i]))
    {
      ContainsReads(merchant, TrimSpace(substrings[i]));
    }
  }

  /** A row resolved again: its verdict is the one on the rules, and nothing else of it differs. */
  ghost predicate HasVerdictOn(was: Row, now: Row, rules: Rules, archived: set<string>) {
    && now.bank == was.bank
    && now.facet.overridden == was.facet.overridden && now.facet.destination == was.facet.destination
    && now.facet.subtype == was.facet.subtype && now.facet.destinationOverridden == was.facet.destinationOverridden
    && IsVerdictOn(now.facet.verdict, was.bank, rules, archived)
  }

  lemma ResolvedHasItsVerdict(was: Row, now: Row, rules: Rules, archived: set<string>)
    requires KeyedByID(rules)
    ensures HasVerdictOn(was, now, rules, archived) <==> now == Resolved(was, rules, archived)
  {
    hide ResolveRow, IsVerdictOn;
    ResolvedIsTheVerdict(now.facet.verdict, was.bank, rules, archived);
  }

  /** Resolved again if its merchant reads a substring and its verdict is not the user's, else left as it was. */
  ghost predicate IsRecategorized(was: Row, now: Row, rules: Rules, archived: set<string>, substrings: seq<string>) {
    if !was.facet.overridden && ReadsOne(CleanMerchantName(was.bank.merchant, was.bank.counterparty), substrings)
    then HasVerdictOn(was, now, rules, archived)
    else now == was
  }

  lemma RecategorizedIsResolved(was: Row, now: Row, rules: Rules, archived: set<string>, substrings: seq<string>)
    requires KeyedByID(rules)
    ensures IsRecategorized(was, now, rules, archived, substrings) <==>
            now == if IsTouched(was, substrings) then Resolved(was, rules, archived) else was
  {
    hide Resolved, HasVerdictOn, TouchesAny, ReadsOne, CleanMerchantName;
    TouchingIsReading(CleanMerchantName(was.bank.merchant, was.bank.counterparty), substrings);
    ResolvedHasItsVerdict(was, now, rules, archived);
  }

  ghost predicate AreRecategorized(before: Table, after: Table, rules: Rules, archived: set<string>,
                                   substrings: seq<string>)
  {
    && (forall id :: id in before <==> id in after)
    && forall id :: id in before ==> IsRecategorized(before[id], after[id], rules, archived, substrings)
  }

  /** That is the incremental pass, and nothing else is. */
  lemma IncrementalRecategorizes(before: Table, after: Table, rules: Rules, archived: set<string>,
                                 substrings: seq<string>)
    requires KeyedByID(rules)
    ensures after == Incremental(before, rules, archived, substrings) <==>
            AreRecategorized(before, after, rules, archived, substrings)
  {
    hide IsRecategorized, Resolved, IsTouched;
    forall id | id in before && id in after
      ensures IsRecategorized(before[id], after[id], rules, archived, substrings) <==>
              after[id] == Incremental(before, rules, archived, substrings)[id]
    {
      RecategorizedIsResolved(before[id], after[id], rules, archived, substrings);
    }
  }

  /** A row that a rule governs ends with that rule's outcome once a pass reads the rule's text. */
  lemma GovernedRowsEndWith(before: Table, after: Table, r: Rule, rules: Rules, archived: set<string>,
                            substrings: seq<string>)
    requires AreRecategorized(before, after, rules, archived, substrings)
    requires IsTrimmed(r.substring) && r.substring in substrings
    ensures forall id :: id in before && !before[id].facet.overridden && GovernsRow(r, rules, before[id], archived) ==>
              after[id].facet.verdict ==
              Verdict(r.classification, if r.classification.Spending? then r.category else None)
  {
    hide Reads, CleanMerchantName, TrimSpace;
    forall id | id in before && !before[id].facet.overridden && GovernsRow(r, rules, before[id], archived)
      ensures HasVerdictOn(before[id], after[id], rules, archived)
    {
      var i :| 0 <= i < |substrings| && substrings[i] == r.substring;
      assert ReadsOne(CleanMerchantName(before[id].bank.merchant, before[id].bank.counterparty), substrings);
      assert IsRecategorized(before[id], after[id], rules, archived, substrings);
    }
  }

  ghost predicate GovernsRow(r: Rule, rules: Rules, row: Row, archived: set<string>) {
    Governs(r, rules, CleanMerchantName(row.bank.merchant, row.bank.counterparty), archived)
  }

  // -------------------------------------------------------------- rule changes

  predicate IsTrimmed(substring: string) {
    substring != "" && TrimSpace(substring) == substring
  }

  /** What validateRule keeps true of the table. */
  ghost predicate ValidRules(rules: Rules) {
    KeyedByID(rules) && forall id :: id in rules ==> IsTrimmed(rules[id].substring)
  }

  /** before and after differ at most in the rule id. */
  ghost predicate DifferOnlyAt(before: Rules, after: Rules, id: string) {
    forall other :: other != id ==>
      && (other in before <==> other in after)
      && (other in before ==> before[other] == after[other])
  }

  /** The old and the new substring of the changed rule are both among those resolved again. */
  ghost predicate Covers(substrings: seq<string>, rules: Rules, id: string) {
    id in rules ==> rules[id].substring in substrings
  }

  /** A rule that does not apply to a merchant decides nothing there, whatever becomes of it. */
  lemma UninvolvedRuleDecidesNothing(before: Rules, after: Rules, id: string, archived: set<string>,
                                     merchant: string, primary: string, amount: real)
    requires DifferOnlyAt(before, after, id) && KeyedByID(before) && KeyedByID(after)
    requires id in before ==> !Applies(before[id], merchant, archived)
    requires id in after ==> !Applies(after[id], merchant, archived)
    ensures Resolve(before, archived, merchant, primary, amount) == Resolve(after, archived, merchant, primary, amount)
  {
    hide Applies, TakesPrecedence, FromRule, WithoutRules, Resolve;
    WinnersCarryOver(before, after, id, archived, merchant);
    WinnersCarryOver(after, before, id, archived, merchant);
    if r :| IsWinner(r, before, merchant, archived) {
      WinnerDecides(r, before, archived, merchant, primary, amount);
      WinnerDecides(r, after, archived, merchant, primary, amount);
    } else {
      NoWinnerFallsThrough(before, archived, merchant, primary, amount);
      NoWinnerFallsThrough(after, archived, merchant, primary, amount);
    }
  }

  lemma NoWinnerFallsThrough(rules: Rules, archived: set<string>, merchant: string, primary: string, amount: real)
    requires forall r :: !IsWinner(r, rules, merchant, archived)
    ensures Resolve(rules, archived, merchant, primary, amount) == WithoutRules(primary, amount, archived)
  {
    hide IsWinner, WithoutRules;
  }

  lemma WinnersCarryOver(before: Rules, after: Rules, id: string, archived: set<string>, merchant: string)
    requires DifferOnlyAt(before, after, id) && KeyedByID(before) && KeyedByID(after)
    requires id in before ==> !Applies(before[id], merchant, archived)
    requires id in after ==> !Applies(after[id], merchant, archived)
    ensures forall r :: IsWinner(r, before, merchant, archived) ==> IsWinner(r, after, merchant, archived)
  {
    hide Applies, TakesPrecedence;
  }

  /** A row no affected substring touches keeps its verdict through the change. */
  lemma UntouchedRowKeepsItsVerdict(row: Row, before: Rules, after: Rules, id: string, archived: set<string>,
                                    substrings: seq<string>)
    requires DifferOnlyAt(before, after, id) && ValidRules(before) && ValidRules(after)
    requires Covers(substrings, before, id) && Covers(substrings, after, id)
    requires !row.facet.overridden && !IsTouched(row, substrings)
    ensures ResolveRow(row.bank, before, archived) == ResolveRow(row.bank, after, archived)
  {
    hide Resolve, CleanMerchantName, ContainsFolded, TrimSpace;
    var merchant := CleanMerchantName(row.bank.merchant, row.bank.counterparty);
    UninvolvedRuleDecidesNothing(before, after, id, archived, merchant, row.bank.primary, row.bank.amount);
  }

  /**
   Resolving the touched rows again equals resolving every row again exactly when the untouched rows
   agreed with the engine before the change.
   */
  lemma IncrementalEqualsFull(t: Table, before: Rules, after: Rules, id: string, archived: set<string>,
                              substrings: seq<string>)
    requires DifferOnlyAt(before, after, id) && ValidRules(before) && ValidRules(after)
    requires Covers(substrings, before, id) && Covers(substrings, after, id)
    ensures Incremental(t, after, archived, substrings) == Full(t, after, archived)
            <==> forall row :: row in t && !IsTouched(t[row], substrings) ==> Agrees(t[row], before, archived)
  {
    hide ResolveRow, IsTouched, DifferOnlyAt, ValidRules, Covers;
    var incremental, full := Incremental(t, after, archived, substrings), Full(t, after, archived);
    forall row | row in t && !IsTouched(t[row], substrings)
      ensures incremental[row] == full[row] <==> Agrees(t[row], before, archived)
    {
      if !t[row].facet.overridden {
        UntouchedRowKeepsItsVerdict(t[row], before, after, id, archived, substrings);
      }
    }
    forall row | row in t && IsTouched(t[row], substrings) ensures incremental[row] == full[row] {
      TouchedIsNotOverridden(t[row], substrings);
    }
    if forall row :: row in t && !IsTouched(t[row], substrings) ==> Agrees(t[row], before, archived) {
      assert forall row :: row in t ==> incremental[row] == full[row];
      assert incremental.Keys == t.Keys == full.Keys;
      assert incremental == full;
    } else {
      var row :| row in t && !IsTouched(t[row], substrings) && !Agrees(t[row], before, archived);
      assert incremental[row] != full[row];
    }
  }

  lemma TouchedIsNotOverridden(row: Row, substrings: seq<string>)
    requires IsTouched(row, substrings)
    ensures !row.facet.overridden
  {
  }

  lemma FullLeavesAllAgreeing(t: Table, rules: Rules, archived: set<string>)
    ensures AllAgree(Full(t, rules, archived), rules, archived)
  {
    hide ResolveRow;
  }

  /** From a table in agreement, the incremental pass leaves every row in agreement with the new rules. */
  lemma AgreementSurvivesRuleChanges(t: Table, before: Rules, after: Rules, id: string, archived: set<string>,
                                     substrings: seq<string>)
    requires DifferOnlyAt(before, after, id) && ValidRules(before) && ValidRules(after)
    requires Covers(substrings, before, id) && Covers(substrings, after, id)
    requires AllAgree(t, before, archived)
    ensures Incremental(t, after, archived, substrings) == Full(t, after, archived)
    ensures AllAgree(Incremental(t, after, archived, substrings), after, archived)
  {
    hide Agrees, Incremental, Full, IsTouched, DifferOnlyAt, ValidRules, Covers;
    IncrementalEqualsFull(t, before, after, id, archived, substrings);
    FullLeavesAllAgreeing(t, after, archived);
  }
}
