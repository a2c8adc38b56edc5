/**
 Creating, editing and deleting rules (src/internal/categorization/service.go) with the
 re-categorization each of them drives (ApplyCategorization in src/internal/transactions/service.go).
 */
module RuleService {
  import opened Common
  import opened Calendar
  import opened Categorization
  import opened Merchants
  import opened Recategorization
  import opened Text
  import opened TransactionTable

  // ----------------------------------------------------------------- listing

  /** Put a rule into its place in a listing. */
  method InsertListed(list: seq<Rule>, r: Rule) returns (longer: seq<Rule>)
    requires InListingOrder(list) && forall i :: 0 <= i < |list| ==> list[i].id != r.id
    ensures InListingOrder(longer) && forall s :: s in longer <==> s in list || s == r
  {
    hide ListedBefore;
    var k := 0;
    while k < |list| && ListedBefore(list[k], r)
      invariant 0 <= k <= |list|
      invariant forall i :: 0 <= i < k ==> ListedBefore(list[i], r)
    {
      k := k + 1;
    }
    longer := list[..k] + [r] + list[k..];
    forall i | k <= i < |list| ensures ListedBefore(r, list[i]) {
      ListedBeforeIsTotal(r, list[k]);
      if k < i {
        ListedBeforeIsTransitive(r, list[k], list[i]);
      }
    }
    assert list == list[..k] + list[k..];
  }

  /** ListRules: every rule, most recently edited first. */
  method ListRules(rules: Rules) returns (list: seq<Rule>)
    requires KeyedByID(rules)
    ensures IsListing(list, rules)
  {
    hide ListedBefore;
    list := [];
    var rest := rules.Keys;
    while rest != {}
      invariant rest <= rules.Keys
      invariant InListingOrder(list)
      invariant forall s :: s in list <==> s.id in rules && s.id !in rest && rules[s.id] == s
      decreases |rest|
    {
      var id :| id in rest;
      list := InsertListed(list, rules[id]);
      rest := rest - {id};
    }
    assert forall id :: id in rules ==> rules[id] in list;
  }

  // ------------------------------------------------------------- validation

  /** validateRule, on the trimmed substring: the category the rule will carry, or the message. */
  function ValidateRule(substring: string, classification: Classification, category: Option<string>)
    : (r: Result<Option<string>>)
    ensures r.Ok? ==> substring != "" && (r.result.Some? <==> classification.Spending?)
    ensures r.Ok? && classification.Spending? ==> r.result == category && TrimSpace(category.value) != ""
    ensures r.Err? <==>
              || substring == ""
              || (classification.Spending? && (category.None? || TrimSpace(category.value) == ""))
              || classification.NeedsReview? || classification.Unclassified?
  {
    if substring == "" then Err("Merchant text can't be blank.")
    else match classification
      case Spending =>
        if category.None? || TrimSpace(category.value) == "" then Err("Choose a category for a spending rule.")
        else Ok(category)
      case Income => Ok(None)
      case Transfer => Ok(None)
      case _ => Err("Choose a valid outcome for the rule.")
  }

  /** dedupeNonEmpty. */
  method DedupeNonEmpty(substrings: seq<string>) returns (affected: seq<string>)
    ensures forall s :: s in affected <==> s in substrings && s != ""
    ensures forall i, j :: 0 <= i < j < |affected| ==> affected[i] != affected[j]
  {
    affected := [];
    for i := 0 to |substrings|
      invariant forall s :: s in affected <==> s in substrings[..i] && s != ""
      invariant forall j, k :: 0 <= j < k < |affected| ==> affected[j] != affected[k]
    {
      if substrings[i] == "" || substrings[i] in affected {
        continue;
      }
      affected := affected + [substrings[i]];
    }
    assert substrings[..|substrings|] == substrings;
  }

  /** matchesAnySubstring. */
  method MatchesAnySubstring(cleanMerchant: string, substrings: seq<string>) returns (touched: bool)
    ensures touched == TouchesAny(cleanMerchant, substrings)
    ensures touched == ReadsOne(cleanMerchant, substrings)
  {
    hide Contains, TrimSpace, ReadsOne;
    TouchingIsReading(cleanMerchant, substrings);
    for i := 0 to |substrings|
      invariant forall j :: 0 <= j < i ==> !Touches(cleanMerchant, substrings[j])
    {
      var sub := TrimSpace(substrings[i]);
      if sub == "" {
        continue;
      }
      if ContainsFolded(cleanMerchant, sub) {
        assert Touches(cleanMerchant, substrings[i]);
        return true;
      }
    }
    return false;
  }

  // ------------------------------------------------------- what the steps come to

  datatype State = State(rules: Rules, rows: Table)

  /** CreateRule. A taken id fails the insert. */
  ghost function Created(s: State, archived: set<string>, id: string, substring: string, classification: Classification,
                         category: Option<string>, now: Instant): State
  {
    var checked := ValidateRule(TrimSpace(substring), classification, category);
    if checked.Err? || id in s.rules then s
    else
      var rules := s.rules[id := Rule(id, TrimSpace(substring), classification, checked.result, now)];
      State(rules, Incremental(s.rows, rules, archived, [TrimSpace(substring)]))
  }

  /** EditRule: the rows of the old and of the new substring. */
  ghost function Edited(s: State, archived: set<string>, id: string, substring: string, classification: Classification,
                        category: Option<string>, now: Instant): State
  {
    var checked := ValidateRule(TrimSpace(substring), classification, category);
    if checked.Err? || id !in s.rules then s
    else
      var rules := s.rules[id := Rule(id, TrimSpace(substring), classification, checked.result, now)];
      State(rules, Incremental(s.rows, rules, archived, [s.rules[id].substring, TrimSpace(substring)]))
  }

  /** DeleteRule: the rows of the substring that is gone. */
  ghost function Deleted(s: State, archived: set<string>, id: string): State {
    if id !in s.rules then s
    else State(s.rules - {id}, Incremental(s.rows, s.rules - {id}, archived, [s.rules[id].substring]))
  }

  predicate IsUnswept(row: Row) {
    !row.facet.overridden && row.facet.verdict.classification.Unclassified?
  }

  /** categorizeUncategorizedSweep: every row still at the default. */
  ghost function Swept(s: State, archived: set<string>): State {
    s.(rows := map id | id in s.rows :: if IsUnswept(s.rows[id]) then Resolved(s.rows[id], s.rules, archived)
       else s.rows[id])
  }

  /** Each row at the default that the user has not overridden gets its verdict, and no other row changes. */
  ghost predicate AreSwept(before: Table, after: Table, rules: Rules, archived: set<string>) {
    && (forall id :: id in before <==> id in after)
    && forall id :: id in before ==>
         if !before[id].facet.overridden && before[id].facet.verdict.classification.Unclassified?
         then HasVerdictOn(before[id], after[id], rules, archived)
         else after[id] == before[id]
  }

  lemma SweptRowsHaveTheirVerdict(s: State, archived: set<string>)
    requires KeyedByID(s.rules)
    ensures AreSwept(s.rows, Swept(s, archived).rows, s.rules, archived)
  {
    hide HasVerdictOn, Resolved;
    forall id | id in s.rows {
      ResolvedHasItsVerdict(s.rows[id], Resolved(s.rows[id], s.rules, archived), s.rules, archived);
    }
  }

  /** The same, with the rows in rest still to visit. */
  ghost function SweptSoFar(t: Table, rules: Rules, archived: set<string>, rest: set<string>): Table {
    map id | id in t :: if id !in rest && IsUnswept(t[id]) then Resolved(t[id], rules, archived) else t[id]
  }

  lemma OneMoreSwept(t: Table, rules: Rules, archived: set<string>, rest: set<string>, id: string)
    requires id in t && id in rest
    ensures var soFar := SweptSoFar(t, rules, archived, rest);
            && id in soFar && soFar[id] == t[id]
            && SweptSoFar(t, rules, archived, rest - {id}) ==
               if IsUnswept(t[id]) then soFar[id := Resolved(t[id], rules, archived)] else soFar
  {
    hide Resolved;
  }

  lemma SweepEnds(t: Table, rules: Rules, archived: set<string>)
    ensures SweptSoFar(t, rules, archived, t.Keys) == t
    ensures SweptSoFar(t, rules, archived, {}) == Swept(State(rules, t), archived).rows
  {
    hide Resolved;
  }

  /** The rows whose stored content differs between two tables of the same rows. */
  ghost function Changed(before: Table, after: Table): set<string> {
    set id | id in before && id in after && before[id] != after[id]
  }

  /** One more row visited. */
  lemma OneMoreVisited(t: Table, rules: Rules, archived: set<string>, substrings: seq<string>, done: set<string>,
                       id: string)
    requires id in t && id !in done
    ensures var soFar := IncrementalSoFar(t, rules, archived, substrings, done);
            var next := IncrementalSoFar(t, rules, archived, substrings, done + {id});
            && id in soFar && soFar[id] == t[id]
            && next == soFar[id := if IsTouched(t[id], substrings) then Resolved(t[id], rules, archived) else t[id]]
            && Changed(t, next) == Changed(t, soFar) + (if next[id] != t[id] then {id} else {})
            && id !in Changed(t, soFar)
  {
    hide IsTouched, Resolved;
  }

  lemma EachVisited(t: Table, rules: Rules, archived: set<string>, substrings: seq<string>)
    ensures IncrementalSoFar(t, rules, archived, substrings, {}) == t && Changed(t, t) == {}
    ensures IncrementalSoFar(t, rules, archived, substrings, t.Keys) == Incremental(t, rules, archived, substrings)
  {
    hide IsTouched, Resolved;
    assert IncrementalSoFar(t, rules, archived, substrings, {}) == t;
  }

  /** Repeated and empty substrings touch nothing more. */
  lemma SameSubstringsTouchTheSame(t: Table, rules: Rules, archived: set<string>, some: seq<string>,
                                   others: seq<string>)
    requires forall s :: s in some <==> s in others && s != ""
    ensures Incremental(t, rules, archived, some) == Incremental(t, rules, archived, others)
  {
    hide Resolved, ContainsFolded, CleanMerchantName;
    forall row: Row ensures IsTouched(row, some) == IsTouched(row, others) {
      var merchant := CleanMerchantName(row.bank.merchant, row.bank.counterparty);
      forall i | 0 <= i < |some| && Touches(merchant, some[i]) ensures TouchesAny(merchant, others) {
        assert some[i] in others;
        var j :| 0 <= j < |others| && others[j] == some[i];
        assert Touches(merchant, others[j]);
      }
      forall j | 0 <= j < |others| && Touches(merchant, others[j]) ensures TouchesAny(merchant, some) {
        assert others[j] in some;
        var i :| 0 <= i < |some| && some[i] == others[j];
        assert Touches(merchant, some[i]);
      }
    }
  }

  // -------------------------------------------------------------- the service

  class Service {
    var rules: Rules
    var archived: set<string>
    const ledger: Ledger

    constructor (ledger: Ledger)
      ensures this.ledger == ledger && rules == map[] && archived == {}
    {
      this.ledger := ledger;
      rules, archived := map[], {};
    }

    /** Resolve: the engine over the rules as they are listed now. */
    method Resolve(bank: Bank) returns (verdict: Verdict)
      requires ValidRules(rules)
      ensures verdict == ResolveRow(bank, rules, archived)
      ensures IsVerdictOn(verdict, bank, rules, archived)
    {
      hide IsVerdictOn, Leads, ReachedByNone, IsByTheBank, Categorization.Resolve, IsListing, WithoutRules, FromRule,
           CleanMerchantName, Applicable;
      var list := ListRules(rules);
      var merchant := CleanMerchant(bank.merchant, bank.counterparty);
      verdict := ResolveCategorization(None, merchant, list, archived, bank.primary, bank.amount);
      ListingDoesNotMatter(list, rules, archived, merchant, bank.primary, bank.amount);
      ResolvedIsTheVerdict(verdict, bank, rules, archived);
    }

    /** resolveAndWrite: write the verdict only where it differs. */
    method ResolveAndWrite(id: string, row: Row) returns (didChange: bool)
      requires ValidRules(rules) && id in ledger.rows && ledger.rows[id] == row
      modifies ledger`rows
      ensures ledger.rows == old(ledger.rows)[id := Resolved(row, rules, archived)]
      ensures didChange <==> Resolved(row, rules, archived) != row
      ensures ledger.rows[id].bank == row.bank && IsVerdictOn(ledger.rows[id].facet.verdict, row.bank, rules, archived)
    {
      hide ResolveRow, ValidRules, IsVerdictOn;
      var verdict := Resolve(row.bank);
      if verdict == row.facet.verdict {
        return false;
      }
      ledger.SetCategorization(id, verdict);
      return true;
    }

    /** ApplyCategorization: the rows not overridden that a substring touches, and how many changed. */
    method ApplyCategorization(substrings: seq<string>) returns (changed: nat)
      requires ValidRules(rules)
      modifies ledger`rows
      ensures ledger.rows == Incremental(old(ledger.rows), rules, archived, substrings)
      ensures AreRecategorized(old(ledger.rows), ledger.rows, rules, archived, substrings)
      ensures changed == |Changed(old(ledger.rows), ledger.rows)|
    {
      hide AreRecategorized, IsVerdictOn, Resolved, Incremental, IncrementalSoFar, Changed, TouchesAny;
      hide CleanMerchantName, IsCleaned, ReadsOne, IsTrimmed;
      ghost var was := ledger.rows;
      ghost var done: set<string> := {};
      var rows := ledger.rows;
      var rest := rows.Keys;
      changed := 0;
      EachVisited(was, rules, archived, substrings);
      while rest != {}
        invariant rest <= rows.Keys && done == was.Keys - rest
        invariant ledger.rows == IncrementalSoFar(was, rules, archived, substrings, done)
        invariant changed == |Changed(was, ledger.rows)|
        decreases |rest|
      {
        var id :| id in rest;
        rest := rest - {id};
        OneMoreVisited(was, rules, archived, substrings, done, id);
        done := done + {id};
        if !rows[id].facet.overridden {
          var merchant := CleanMerchant(rows[id].bank.merchant, rows[id].bank.counterparty);
          var touched := MatchesAnySubstring(merchant, substrings);
          if touched {
            var didChange := ResolveAndWrite(id, rows[id]);
            if didChange {
              changed := changed + 1;
            }
          }
        }
      }
      assert done == was.Keys;
      IncrementalRecategorizes(was, ledger.rows, rules, archived, substrings);
    }

    /** reapplyFor. */
    method ReapplyFor(substrings: seq<string>) returns (changed: nat)
      requires ValidRules(rules)
      modifies ledger`rows
      ensures ledger.rows == Incremental(old(ledger.rows), rules, archived, substrings)
      ensures AreRecategorized(old(ledger.rows), ledger.rows, rules, archived, substrings)
      ensures changed == |Changed(old(ledger.rows), ledger.rows)|
    {
      hide AreRecategorized, Resolved, ContainsFolded, CleanMerchantName;
      var affected := DedupeNonEmpty(substrings);
      SameSubstringsTouchTheSame(ledger.rows, rules, archived, affected, substrings);
      if affected == [] {
        IncrementalRecategorizes(ledger.rows, ledger.rows, rules, archived, substrings);
        return 0;
      }
      changed := ApplyCategorization(affected);
      IncrementalRecategorizes(old(ledger.rows), ledger.rows, rules, archived, substrings);
    }

    /** CreateRule. */
    method CreateRule(id: string, substring: string, classification: Classification, category: Option<string>,
                      now: Instant)
      returns (r: Result<(Rule, nat)>)
      requires ValidRules(rules)
      modifies this`rules, ledger`rows
      ensures ValidRules(rules)
      ensures State(rules, ledger.rows) ==
              Created(old(State(rules, ledger.rows)), archived, id, substring, classification, category, now)
      ensures r.Ok? ==> rules == old(rules)[id := Rule(id, TrimSpace(substring), classification,
                                                       if classification.Spending? then category else None, now)]
      ensures r.Ok? ==> AreRecategorized(old(ledger.rows), ledger.rows, rules, archived, [TrimSpace(substring)])
      ensures r.Ok? ==> forall row :: row in old(ledger.rows) && !old(ledger.rows)[row].facet.overridden
                                      && GovernsRow(rules[id], rules, old(ledger.rows)[row], archived) ==>
                ledger.rows[row].facet.verdict ==
                Verdict(classification, if classification.Spending? then category else None)
      ensures r.Err? ==> rules == old(rules) && ledger.rows == old(ledger.rows)
      ensures r.Err? <==> ValidateRule(TrimSpace(substring), classification, category).Err? || id in old(rules)
      ensures r.Ok? ==> id in rules && rules[id] == r.result.0 && r.result.1 == |Changed(old(ledger.rows), ledger.rows)|
      ensures r.Ok? && old(AllAgree(ledger.rows, rules, archived)) ==>
                && ledger.rows == Full(old(ledger.rows), rules, archived)
                && AllAgree(ledger.rows, rules, archived)
    {
      hide AreRecategorized, GovernsRow, Incremental, Full, AllAgree, Changed, TrimSpace, ValidateRule;
      var trimmed := TrimSpace(substring);
      var checked := ValidateRule(trimmed, classification, category);
      if checked.Err? {
        return Err(checked.message);
      }
      if id in rules {
        return Err("failed to create rule");
      }
      TrimIsIdempotent(substring);
      ghost var before := rules;
      var created := Rule(id, trimmed, classification, checked.result, now);
      rules := rules[id := created];
      var changed := ReapplyFor([trimmed]);
      AgreementIfBefore(old(ledger.rows), before, rules, id, archived, [trimmed]);
      GovernedRowsEndWith(old(ledger.rows), ledger.rows, created, rules, archived, [trimmed]);
      r := Ok((created, changed));
    }

    /** EditRule. */
    method EditRule(id: string, substring: string, classification: Classification, category: Option<string>,
                    now: Instant)
      returns (r: Result<(Rule, nat)>)
      requires ValidRules(rules)
      modifies this`rules, ledger`rows
      ensures ValidRules(rules)
      ensures State(rules, ledger.rows) ==
              Edited(old(State(rules, ledger.rows)), archived, id, substring, classification, category, now)
      ensures r.Ok? ==> rules == old(rules)[id := Rule(id, TrimSpace(substring), classification,
                                                       if classification.Spending? then category else None, now)]
      ensures r.Ok? ==> id in old(rules)
                        && AreRecategorized(old(ledger.rows), ledger.rows, rules, archived,
                                            [old(rules)[id].substring, TrimSpace(substring)])
      ensures r.Ok? ==> forall row :: row in old(ledger.rows) && !old(ledger.rows)[row].facet.overridden
                                      && GovernsRow(rules[id], rules, old(ledger.rows)[row], archived) ==>
                ledger.rows[row].facet.verdict ==
                Verdict(classification, if classification.Spending? then category else None)
      ensures r.Err? ==> rules == old(rules) && ledger.rows == old(ledger.rows)
      ensures r.Err? <==> ValidateRule(TrimSpace(substring), classification, category).Err? || id !in old(rules)
      ensures r.Ok? ==> id in rules && rules[id] == r.result.0 && r.result.1 == |Changed(old(ledger.rows), ledger.rows)|
      ensures r.Ok? && old(AllAgree(ledger.rows, rules, archived)) ==>
                && ledger.rows == Full(old(ledger.rows), rules, archived)
                && AllAgree(ledger.rows, rules, archived)
    {
      hide AreRecategorized, GovernsRow, Incremental, Full, AllAgree, Changed, TrimSpace, ValidateRule;
      var trimmed := TrimSpace(substring);
      var checked := ValidateRule(trimmed, classification, category);
      if checked.Err? {
        return Err(checked.message);
      }
      if id !in rules {
        return Err("failed to load rule");
      }
      TrimIsIdempotent(substring);
      ghost var before := rules;
      var oldSubstring := rules[id].substring;
      var updated := Rule(id, trimmed, classification, checked.result, now);
      rules := rules[id := updated];
      var changed := ReapplyFor([oldSubstring, trimmed]);
      AgreementIfBefore(old(ledger.rows), before, rules, id, archived, [oldSubstring, trimmed]);
      GovernedRowsEndWith(old(ledger.rows), ledger.rows, updated, rules, archived, [oldSubstring, trimmed]);
      r := Ok((updated, changed));
    }

    /** DeleteRule. */
    method DeleteRule(id: string) returns (r: Result<nat>)
      requires ValidRules(rules)
      modifies this`rules, ledger`rows
      ensures ValidRules(rules)
      ensures State(rules, ledger.rows) == Deleted(old(State(rules, ledger.rows)), archived, id)
      ensures r.Ok? ==> id in old(rules) && rules == old(rules) - {id}
                        && AreRecategorized(old(ledger.rows), ledger.rows, rules, archived, [old(rules)[id].substring])
      ensures r.Err? ==> rules == old(rules) && ledger.rows == old(ledger.rows)
      ensures r.Err? <==> id !in old(rules)
      ensures r.Ok? ==> r.result == |Changed(old(ledger.rows), ledger.rows)|
      ensures r.Ok? && old(AllAgree(ledger.rows, rules, archived)) ==>
                && ledger.rows == Full(old(ledger.rows), rules, archived)
                && AllAgree(ledger.rows, rules, archived)
    {
      hide AreRecategorized, Incremental, Full, AllAgree, Changed, TrimSpace;
      if id !in rules {
        return Err("failed to load rule");
      }
      ghost var before := rules;
      var substring := rules[id].substring;
      rules := rules - {id};
      var changed := ReapplyFor([substring]);
      AgreementIfBefore(old(ledger.rows), before, rules, id, archived, [substring]);
      r := Ok(changed);
    }

    /** categorizeUncategorizedSweep: the step of every sync that resolves the rows still at the default. */
    method CategorizeUncategorized()
      requires ValidRules(rules)
      modifies ledger`rows
      ensures State(rules, ledger.rows) == Swept(old(State(rules, ledger.rows)), archived)
      ensures AreSwept(old(ledger.rows), ledger.rows, rules, archived)
    {
      hide AreSwept, Resolved, SweptSoFar;
      ghost var was := ledger.rows;
      var rows := ledger.rows;
      var rest := rows.Keys;
      SweepEnds(was, rules, archived);
      while rest != {}
        invariant rest <= rows.Keys
        invariant ledger.rows == SweptSoFar(was, rules, archived, rest)
        decreases |rest|
      {
        var id :| id in rest;
        OneMoreSwept(was, rules, archived, rest, id);
        rest := rest - {id};
        if IsUnswept(rows[id]) {
          var _ := ResolveAndWrite(id, rows[id]);
        }
      }
      SweptRowsHaveTheirVerdict(State(rules, was), archived);
    }
  }

  lemma AgreementIfBefore(t: Table, before: Rules, after: Rules, id: string, archived: set<string>,
                          substrings: seq<string>)
    requires DifferOnlyAt(before, after, id) && ValidRules(before) && ValidRules(after)
    requires Covers(substrings, before, id) && Covers(substrings, after, id)
    ensures AllAgree(t, before, archived) ==>
              && Incremental(t, after, archived, substrings) == Full(t, after, archived)
              && AllAgree(Incremental(t, after, archived, substrings), after, archived)
  {
    hide AllAgree, Incremental, Full, DifferOnlyAt, ValidRules, Covers;
    if AllAgree(t, before, archived) {
      AgreementSurvivesRuleChanges(t, before, after, id, archived, substrings);
    }
  }

  // -------------------------------------------------------------------- runs

  datatype Step =
    | Create(id: string, substring: string, classification: Classification, category: Option<string>, now: Instant)
    | Edit(id: string, substring: string, classification: Classification, category: Option<string>, now: Instant)
    | Remove(id: string)
    | OverrideRow(id: string, verdict: Verdict)
    | Arrive(id: string, bank: Bank)
    | Sweep

  ghost function After(s: State, step: Step, archived: set<string>): State {
    match step
    case Create(id, substring, classification, category, now) =>
      Created(s, archived, id, substring, classification, category, now)
    case Edit(id, substring, classification, category, now) =>
      Edited(s, archived, id, substring, classification, category, now)
    case Remove(id) => Deleted(s, archived, id)
    case OverrideRow(id, verdict) => s.(rows := Override(s.rows, id, verdict))
    case Arrive(id, bank) => s.(rows := Upsert(s.rows, id, bank))
    case Sweep => Swept(s, archived)
  }

  ghost function AfterRun(s: State, run: seq<Step>, archived: set<string>): State {
    if run == [] then s else After(AfterRun(s, run[..|run| - 1], archived), run[|run| - 1], archived)
  }

  /** In step with the rules: overridden, not yet swept, or carrying the engine's verdict. */
  ghost predicate InStep(row: Row, rules: Rules, archived: set<string>) {
    IsUnswept(row) || Agrees(row, rules, archived)
  }

  ghost predicate AllInStep(s: State, archived: set<string>) {
    forall id :: id in s.rows ==> InStep(s.rows[id], s.rules, archived)
  }

  /** What a sync may bring without disturbing that. */
  ghost predicate IsQuiet(s: State, id: string, bank: Bank, archived: set<string>) {
    || id !in s.rows
    || s.rows[id].facet.overridden
    || s.rows[id].facet.verdict.classification.Unclassified?
    || ResolveRow(bank, s.rules, archived) == ResolveRow(s.rows[id].bank, s.rules, archived)
  }

  /** An arrival keeps the table in step exactly when it is quiet: no later pass looks at the row again. */
  lemma ArrivalKeepsStepExactlyWhenQuiet(s: State, id: string, bank: Bank, archived: set<string>)
    requires AllInStep(s, archived)
    ensures AllInStep(After(s, Arrive(id, bank), archived), archived) <==> IsQuiet(s, id, bank, archived)
  {
    hide ResolveRow;
    var after := After(s, Arrive(id, bank), archived);
    assert id in after.rows;
    assert forall other :: other in s.rows && other != id ==> after.rows[other] == s.rows[other];
  }

  /**
   A refresh is quiet when it leaves what the engine reads of the row: the cleaned merchant, the
   bank's category and the sign of the amount.
   */
  lemma SameReadingIsQuiet(s: State, id: string, bank: Bank, archived: set<string>)
    requires id in s.rows
    requires var was := s.rows[id].bank;
             && CleanMerchantName(bank.merchant, bank.counterparty) == CleanMerchantName(was.merchant, was.counterparty)
             && ToUpper(TrimSpace(bank.primary)) == ToUpper(TrimSpace(was.primary))
             && (bank.amount > 0.0 <==> was.amount > 0.0)
    ensures IsQuiet(s, id, bank, archived)
  {
    hide CleanMerchantName, TrimSpace, IsWinner, FromRule;
  }

  /** A row that arrives new has its verdict on the rules once the next sweep is through. */
  lemma NewRowIsSwept(s: State, id: string, bank: Bank, archived: set<string>)
    requires KeyedByID(s.rules) && id !in s.rows
    ensures var rows := After(After(s, Arrive(id, bank), archived), Sweep, archived).rows;
            && id in rows && rows[id].bank == bank && !rows[id].facet.overridden
            && IsVerdictOn(rows[id].facet.verdict, bank, s.rules, archived)
  {
    hide IsVerdictOn, Resolved;
    var arrived := After(s, Arrive(id, bank), archived);
    SweptRowsHaveTheirVerdict(arrived, archived);
    assert HasVerdictOn(arrived.rows[id], Swept(arrived, archived).rows[id], s.rules, archived);
  }

  ghost predicate IsQuietStep(s: State, step: Step, archived: set<string>) {
    step.Arrive? ==> IsQuiet(s, step.id, step.bank, archived)
  }

  ghost predicate IsQuietRun(s: State, run: seq<Step>, archived: set<string>) {
    forall i :: 0 <= i < |run| ==> IsQuietStep(AfterRun(s, run[..i], archived), run[i], archived)
  }

  lemma RuleChangeKeepsStep(s: State, after: Rules, id: string, archived: set<string>, substrings: seq<string>)
    requires DifferOnlyAt(s.rules, after, id) && ValidRules(s.rules) && ValidRules(after)
    requires Covers(substrings, s.rules, id) && Covers(substrings, after, id)
    requires AllInStep(s, archived)
    ensures AllInStep(State(after, Incremental(s.rows, after, archived, substrings)), archived)
  {
    hide ResolveRow, IsTouched, DifferOnlyAt, ValidRules, Covers;
    var rows := Incremental(s.rows, after, archived, substrings);
    forall row | row in rows ensures InStep(rows[row], after, archived) {
      assert InStep(s.rows[row], s.rules, archived);
      if !IsTouched(s.rows[row], substrings) && !s.rows[row].facet.overridden {
        UntouchedRowKeepsItsVerdict(s.rows[row], s.rules, after, id, archived, substrings);
      }
    }
  }

  lemma StepKeepsStep(s: State, step: Step, archived: set<string>)
    requires ValidRules(s.rules) && AllInStep(s, archived) && IsQuietStep(s, step, archived)
    ensures ValidRules(After(s, step, archived).rules) && AllInStep(After(s, step, archived), archived)
  {
    if step.Create? || step.Edit? || step.Remove? {
      RuleStepKeepsStep(s, step, archived);
    } else {
      RowStepKeepsStep(s, step, archived);
    }
  }

  lemma StoringKeepsValid(rules: Rules, r: Rule)
    requires ValidRules(rules) && IsTrimmed(r.substring)
    ensures ValidRules(rules[r.id := r]) && DifferOnlyAt(rules, rules[r.id := r], r.id)
  {
    hide TrimSpace;
  }

  lemma RemovingKeepsValid(rules: Rules, id: string)
    requires ValidRules(rules)
    ensures ValidRules(rules - {id}) && DifferOnlyAt(rules, rules - {id}, id)
  {
    hide IsTrimmed;
  }

  lemma RuleStepKeepsStep(s: State, step: Step, archived: set<string>)
    requires ValidRules(s.rules) && AllInStep(s, archived) && (step.Create? || step.Edit? || step.Remove?)
    ensures ValidRules(After(s, step, archived).rules) && AllInStep(After(s, step, archived), archived)
  {
    hide AllInStep, Incremental, TrimSpace, ValidateRule, ValidRules, DifferOnlyAt;
    var after := After(s, step, archived);
    if step.Remove? {
      if step.id in s.rules {
        RemovingKeepsValid(s.rules, step.id);
        RuleChangeKeepsStep(s, after.rules, step.id, archived, [s.rules[step.id].substring]);
      }
    } else {
      var trimmed := TrimSpace(step.substring);
      if after != s {
        TrimIsIdempotent(step.substring);
        StoringKeepsValid(s.rules, after.rules[step.id]);
        RuleChangeKeepsStep(s, after.rules, step.id, archived,
                            if step.Create? then [trimmed] else [s.rules[step.id].substring, trimmed]);
      }
    }
  }

  lemma RowStepKeepsStep(s: State, step: Step, archived: set<string>)
    requires AllInStep(s, archived) && IsQuietStep(s, step, archived)
             && (step.OverrideRow? || step.Arrive? || step.Sweep?)
    ensures After(s, step, archived).rules == s.rules && AllInStep(After(s, step, archived), archived)
  {
    hide ResolveRow;
    if step.Arrive? {
      ArrivalKeepsStepExactlyWhenQuiet(s, step.id, step.bank, archived);
    }
  }

  /** Over any quiet run of rule changes, overrides, arrivals and sweeps, every row stays in step. */
  lemma {:induction false} RunKeepsStep(s: State, run: seq<Step>, archived: set<string>)
    requires ValidRules(s.rules) && AllInStep(s, archived) && IsQuietRun(s, run, archived)
    ensures ValidRules(AfterRun(s, run, archived).rules) && AllInStep(AfterRun(s, run, archived), archived)
  {
    hide ValidRules, AllInStep, After, IsQuietStep;
    if run != [] {
      var n := |run| - 1;
      var front := run[..n];
      assert forall i :: 0 <= i < n ==> front[..i] == run[..i] && front[i] == run[i];
      RunKeepsStep(s, front, archived);
      assert IsQuietStep(AfterRun(s, run[..n], archived), run[n], archived);
      StepKeepsStep(AfterRun(s, front, archived), run[n], archived);
    }
  }

  /** And one sweep later, every row not overridden carries the engine's verdict under the rules of that moment. */
  lemma SweptRunAgrees(s: State, run: seq<Step>, archived: set<string>)
    requires ValidRules(s.rules) && AllInStep(s, archived) && IsQuietRun(s, run, archived)
    ensures var last := After(AfterRun(s, run, archived), Sweep, archived);
            AllAgree(last.rows, last.rules, archived)
  {
    hide ValidRules, ResolveRow, AfterRun, IsQuietRun;
    RunKeepsStep(s, run, archived);
    var r := AfterRun(s, run, archived);
    forall id | id in r.rows ensures Agrees(Swept(r, archived).rows[id], r.rules, archived) {
      assert InStep(r.rows[id], r.rules, archived);
    }
  }

  /** A manual verdict stands through any run that does not override the row again. */
  lemma {:induction false} OverrideStands(s: State, run: seq<Step>, archived: set<string>, id: string)
    requires id in s.rows && s.rows[id].facet.overridden
    requires forall i :: 0 <= i < |run| ==> !(run[i].OverrideRow? && run[i].id == id)
    ensures var after := AfterRun(s, run, archived); id in after.rows && after.rows[id].facet == s.rows[id].facet
  {
    hide After;
    if run != [] {
      var n := |run| - 1;
      OverrideStands(s, run[..n], archived, id);
      OverrideStandsOneStep(AfterRun(s, run[..n], archived), run[n], archived, id);
    }
  }

  lemma OverrideStandsOneStep(s: State, step: Step, archived: set<string>, id: string)
    requires id in s.rows && s.rows[id].facet.overridden && !(step.OverrideRow? && step.id == id)
    ensures var after := After(s, step, archived); id in after.rows && after.rows[id].facet == s.rows[id].facet
  {
    hide Resolved, TouchesAny, ValidateRule, TrimSpace;
  }
}
