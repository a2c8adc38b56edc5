/**
 What a resolution pass decides, in plain figures (src/internal/schedule/service.go): which
 occurrences it visits, which ledger rows it weighs for each, which one it takes, what the items
 were taught, and which rows it drops as orphaned.
 */
module Winners {
  import opened Common
  import opened Calendar
  import opened DateText
  import opened Schedule
  import opened Windows
  import opened Matching
  import opened MatchStore
  import opened Resolution
  import opened Text

  // ---------------------------------------------------------------- visits

  /** A pass visits every occurrence of every item from one cadence ago to today, and nothing else. */
  lemma {:induction false} VisitsAreExact(items: seq<Item>, today: Date, item: Item, day: Date)
    ensures Visit(item, day) in Visits(items, today) <==>
            && item in items && IsOccurrence(item, day)
            && (if item.cadence.Biweekly? then today - 14 else AddMonthsClampedDate(today, -1)) <= day <= today
  {
    hide IsOccurrence, AddMonthsClampedDate;
    if items != [] {
      var n := |items| - 1;
      var last := items[n];
      var days := Between(last, LookbackFrom(last, today), today);
      VisitsAreExact(items[..n], today, item, day);
      BetweenIsExact(last, LookbackFrom(last, today), today);
      assert items == items[..n] + [last];
      VisitsOfOne(last, days, item, day);
      assert Visits(items, today) == Visits(items[..n], today) + VisitsOf(last, days);
    }
  }

  lemma VisitsOfOne(last: Item, days: seq<Date>, item: Item, day: Date)
    ensures Visit(item, day) in VisitsOf(last, days) <==> item == last && day in days
  {
    if item == last && day in days {
      var i :| 0 <= i < |days| && days[i] == day;
      assert VisitsOf(last, days)[i] == Visit(item, day);
    }
  }

  // ------------------------------------------------------------ candidates

  /** Every checking row within reach of a visited occurrence is a candidate for it. */
  lemma RowsInReachAreCandidates(env: Env, v: Visit, c: Candidate)
    requires v in Visits(env.items, env.today) && LedgerRow(c, true) in env.ledger && DaysOff(v.day, c) <= 5
    ensures c in CandidatesFor(env, v.item)
  {
    hide CheckingCandidates, AddMonthsClampedDate, Visits, IsOccurrence;
    VisitsAreExact(env.items, env.today, v.item, v.day);
    CheckingCandidatesAreExact(env.ledger, LookbackFrom(v.item, env.today) - MatchDateTolerance,
                               env.today + MatchDateTolerance);
  }

  lemma {:induction false} CandidatesAreDistinct(ledger: Ledger, from: Date, to: Date)
    requires LedgerKeyed(ledger)
    ensures DistinctIDs(CheckingCandidates(ledger, from, to))
  {
    if ledger != [] {
      var n := |ledger| - 1;
      CandidatesAreDistinct(ledger[..n], from, to);
      CheckingCandidatesAreExact(ledger[..n], from, to);
      var s := CheckingCandidates(ledger[..n], from, to);
      forall i | 0 <= i < |s| ensures s[i].id != ledger[n].candidate.id {
        assert s[i] in s;
        var j :| 0 <= j < n && ledger[..n][j] == LedgerRow(s[i], true);
        assert ledger[j] == LedgerRow(s[i], true);
      }
      var more := s + [ledger[n].candidate];
      assert DistinctIDs(more);
      assert CheckingCandidates(ledger, from, to) == s || CheckingCandidates(ledger, from, to) == more;
    }
  }

  /** Of the checking rows, the one that could settle the occurrence and is nearer than all others that could. */
  ghost predicate IsNearestInLedger(env: Env, v: Visit, merchant: string, claimedBy: map<string, string>,
                                    c: Candidate)
  {
    var holder := Holder(v.item.id, v.day);
    && LedgerRow(c, true) in env.ledger && CouldSettle(v.item, v.day, c, merchant, holder, claimedBy)
    && forall other :: LedgerRow(other, true) in env.ledger && other != c
                       && CouldSettle(v.item, v.day, other, merchant, holder, claimedBy) ==>
         IsNearer(v.item, v.day, c, other)
  }

  lemma ChoiceIsNearestInLedger(env: Env, learned: map<string, string>, v: Visit, claimedBy: map<string, string>,
                                c: Candidate)
    requires LedgerKeyed(env.ledger) && v in Visits(env.items, env.today)
    ensures var merchant := if v.item.id in learned then learned[v.item.id] else "";
            Choice(env, learned, v, claimedBy) == Some(c) <==> IsNearestInLedger(env, v, merchant, claimedBy, c)
  {
    hide Best, IsNearestOf, IsNearestInLedger, CandidatesFor, Visits, LedgerKeyed;
    var merchant := if v.item.id in learned then learned[v.item.id] else "";
    var (holder, candidates) := (Holder(v.item.id, v.day), CandidatesFor(env, v.item));
    BestIsTheNearest(v.item, v.day, candidates, merchant, holder, claimedBy);
    if IsNearestInLedger(env, v, merchant, claimedBy, c) {
      var i := NearestInLedgerIsNearestOf(env, v, merchant, claimedBy, c);
    }
    if Choice(env, learned, v, claimedBy) == Some(c) {
      var i :| IsNearestOf(v.item, v.day, candidates, merchant, holder, claimedBy, i);
      NearestOfIsNearestInLedger(env, v, merchant, claimedBy, i);
    }
  }

  lemma CouldSettleIsInReach(env: Env, v: Visit, merchant: string, claimedBy: map<string, string>, c: Candidate)
    requires CouldSettle(v.item, v.day, c, merchant, Holder(v.item.id, v.day), claimedBy)
    ensures DaysOff(v.day, c) <= 5
  {
    hide Holder, AmountFits;
  }

  lemma NearestInLedgerIsNearestOf(env: Env, v: Visit, merchant: string, claimedBy: map<string, string>, c: Candidate)
    returns (i: nat)
    requires LedgerKeyed(env.ledger) && v in Visits(env.items, env.today)
    requires IsNearestInLedger(env, v, merchant, claimedBy, c)
    ensures i < |CandidatesFor(env, v.item)| && CandidatesFor(env, v.item)[i] == c
    ensures IsNearestOf(v.item, v.day, CandidatesFor(env, v.item), merchant, Holder(v.item.id, v.day), claimedBy, i)
  {
    hide Visits, CandidatesFor, LedgerKeyed, IsNearer, Holder, CouldSettle, DistinctIDs;
    var candidates := CandidatesFor(env, v.item);
    CouldSettleIsInReach(env, v, merchant, claimedBy, c);
    RowsInReachAreCandidates(env, v, c);
    i :| 0 <= i < |candidates| && candidates[i] == c;
    CandidatesForAreDistinct(env, v.item);
    CandidatesAreCheckingRows(env, v.item);
    forall j | 0 <= j < |candidates| && j != i
      ensures LedgerRow(candidates[j], true) in env.ledger && candidates[j] != c
    {
      assert candidates[j] in candidates;
      DistinctIDsDiffer(candidates, i, j);
    }
  }

  lemma CandidatesForAreDistinct(env: Env, item: Item)
    requires LedgerKeyed(env.ledger)
    ensures DistinctIDs(CandidatesFor(env, item))
  {
    hide LedgerKeyed, DistinctIDs, CheckingCandidates, LookbackFrom;
    CandidatesAreDistinct(env.ledger, LookbackFrom(item, env.today) - MatchDateTolerance,
                          env.today + MatchDateTolerance);
  }

  lemma DistinctIDsDiffer(s: seq<Candidate>, i: nat, j: nat)
    requires DistinctIDs(s) && i < |s| && j < |s| && i != j
    ensures s[i].id != s[j].id
  {
  }

  lemma NearestOfIsNearestInLedger(env: Env, v: Visit, merchant: string, claimedBy: map<string, string>, i: int)
    requires v in Visits(env.items, env.today)
    requires IsNearestOf(v.item, v.day, CandidatesFor(env, v.item), merchant, Holder(v.item.id, v.day), claimedBy, i)
    ensures IsNearestInLedger(env, v, merchant, claimedBy, CandidatesFor(env, v.item)[i])
  {
    hide Visits, CandidatesFor, IsNearer, Holder, AmountFits, DaysOff;
    var (holder, candidates) := (Holder(v.item.id, v.day), CandidatesFor(env, v.item));
    CandidatesAreCheckingRows(env, v.item);
    assert candidates[i] in candidates;
    forall other | LedgerRow(other, true) in env.ledger && other != candidates[i]
                   && CouldSettle(v.item, v.day, other, merchant, holder, claimedBy)
      ensures IsNearer(v.item, v.day, candidates[i], other)
    {
      RowsInReachAreCandidates(env, v, other);
      var j :| 0 <= j < |candidates| && candidates[j] == other;
    }
  }

  // ------------------------------------------------------------- decisions

  /** The claims a pass has made when it comes to its n-th visit. */
  ghost function ClaimsAt(t: Table, env: Env, n: nat): map<string, string>
    requires Unique(t) && n <= |Visits(env.items, env.today)|
  {
    ScanVisits(env, Learned(t, env), ClaimedBy(t), Visits(env.items, env.today)[..n]).claimedBy
  }

  lemma ScannedOneMore(env: Env, learned: map<string, string>, claimed: map<string, string>, visits: seq<Visit>)
    requires visits != []
    ensures var (m, v) := (|visits| - 1, visits[|visits| - 1]);
            var before := ScanVisits(env, learned, claimed, visits[..m]);
            var choice := Choice(env, learned, v, before.claimedBy);
            ScanVisits(env, learned, claimed, visits) ==
            if choice.None? then before
            else Scan(before.claimedBy[choice.value.id := Holder(v.item.id, v.day)],
                      before.decisions + [Decision(OccurrenceOf(v), choice.value.id)])
  {
    hide Choice, OccurrenceOf, Holder;
  }

  lemma OneMoreScanned(env: Env, learned: map<string, string>, claimed: map<string, string>, visits: seq<Visit>,
                       d: Decision)
    requires visits != []
    ensures var m := |visits| - 1;
            var before := ScanVisits(env, learned, claimed, visits[..m]);
            var choice := Choice(env, learned, visits[m], before.claimedBy);
            d in ScanVisits(env, learned, claimed, visits).decisions <==>
            d in before.decisions || (choice.Some? && d == Decision(OccurrenceOf(visits[m]), choice.value.id))
  {
    hide Choice, OccurrenceOf, Holder, ScanVisits;
    ScannedOneMore(env, learned, claimed, visits);
  }

  lemma {:induction false} EachVisitIsDecided(env: Env, learned: map<string, string>, claimed: map<string, string>,
                                              visits: seq<Visit>, n: nat, txn: string)
    requires DistinctVisits(visits) && n < |visits|
    ensures var choice := Choice(env, learned, visits[n], ScanVisits(env, learned, claimed, visits[..n]).claimedBy);
            Decision(OccurrenceOf(visits[n]), txn) in ScanVisits(env, learned, claimed, visits).decisions <==>
            choice.Some? && choice.value.id == txn
  {
    hide Choice, OccurrenceOf, ScanVisits;
    var m := |visits| - 1;
    var front := visits[..m];
    OneMoreScanned(env, learned, claimed, visits, Decision(OccurrenceOf(visits[n]), txn));
    if n < m {
      assert forall i :: 0 <= i < m ==> front[i] == visits[i];
      EachVisitIsDecided(env, learned, claimed, front, n, txn);
      assert front[..n] == visits[..n];
      assert OccurrenceOf(visits[n]) != OccurrenceOf(visits[m]);
    } else {
      NotDecidedBefore(env, learned, claimed, visits, txn);
    }
  }

  lemma NotDecidedBefore(env: Env, learned: map<string, string>, claimed: map<string, string>, visits: seq<Visit>,
                         txn: string)
    requires visits != [] && DistinctVisits(visits)
    ensures var m := |visits| - 1;
            Decision(OccurrenceOf(visits[m]), txn) !in ScanVisits(env, learned, claimed, visits[..m]).decisions
  {
    hide Choice, OccurrenceOf, ScanVisits;
    var m := |visits| - 1;
    var front := visits[..m];
    assert forall i :: 0 <= i < m ==> front[i] == visits[i] && OccurrenceOf(front[i]) != OccurrenceOf(visits[m]);
    ScanKeepsClaims(env, learned, claimed, front);
  }

  /**
   A pass decides a visited occurrence for a transaction exactly when that is, among the ledger's
   checking rows not claimed by then for another occurrence, the one nearest to it that could settle it.
   */
  lemma DecisionsAreTheNearest(t: Table, env: Env, n: nat, txn: string)
    requires Unique(t) && DistinctItems(env.items) && LedgerKeyed(env.ledger) && n < |Visits(env.items, env.today)|
    ensures var v := Visits(env.items, env.today)[n];
            var merchant := if v.item.id in Learned(t, env) then Learned(t, env)[v.item.id] else "";
            Decision(Occurrence(v.item.id, v.day), txn) in Decisions(t, env) <==>
            exists c: Candidate :: c.id == txn && IsNearestInLedger(env, v, merchant, ClaimsAt(t, env, n), c)
  {
    hide Choice, ScanVisits, IsNearestInLedger, Visits, Learned, ClaimedBy, LedgerKeyed;
    var visits, learned := Visits(env.items, env.today), Learned(t, env);
    var v, at := visits[n], ClaimsAt(t, env, n);
    VisitsAreDistinct(env.items, env.today);
    EachVisitIsDecided(env, learned, ClaimedBy(t), visits, n, txn);
    var merchant := if v.item.id in learned then learned[v.item.id] else "";
    var choice := Choice(env, learned, v, at);
    if choice.Some? {
      ChoiceIsNearestInLedger(env, learned, v, at, choice.value);
    }
    if c: Candidate :| c.id == txn && IsNearestInLedger(env, v, merchant, at, c) {
      ChoiceIsNearestInLedger(env, learned, v, at, c);
    }
  }

  /** A claim is one the table holds, or one an earlier visit of the pass made. */
  lemma {:induction false} ClaimsComeFrom(env: Env, learned: map<string, string>, claimed: map<string, string>,
                                          visits: seq<Visit>, x: string)
    requires DistinctVisits(visits)
    ensures var s := ScanVisits(env, learned, claimed, visits);
            x in s.claimedBy <==> x in claimed || exists d :: d in s.decisions && d.txn == x
    ensures var s := ScanVisits(env, learned, claimed, visits);
            && (x in claimed ==> s.claimedBy[x] == claimed[x])
            && forall d :: d in s.decisions && d.txn == x ==>
               s.claimedBy[x] == Holder(d.occurrence.item, d.occurrence.day)
  {
    hide Choice, Holder, ScanVisits, DistinctVisits, OccurrenceOf;
    ScanKeepsClaims(env, learned, claimed, visits);
    if visits == [] {
      NothingIsScanned(env, learned, claimed);
    } else {
      var m := |visits| - 1;
      var before := ScanVisits(env, learned, claimed, visits[..m]);
      FrontIsDistinct(visits);
      ClaimsComeFrom(env, learned, claimed, visits[..m], x);
      ScannedOneMore(env, learned, claimed, visits);
      var choice := Choice(env, learned, visits[m], before.claimedBy);
      if choice.Some? {
        var made := Decision(OccurrenceOf(visits[m]), choice.value.id);
        assert made in before.decisions + [made];
        assert forall d :: d in before.decisions ==> d in before.decisions + [made];
      }
    }
  }

  lemma NothingIsScanned(env: Env, learned: map<string, string>, claimed: map<string, string>)
    ensures ScanVisits(env, learned, claimed, []) == Scan(claimed, [])
  {
  }

  lemma FrontIsDistinct(visits: seq<Visit>)
    requires visits != [] && DistinctVisits(visits)
    ensures DistinctVisits(visits[..|visits| - 1])
  {
  }

  /** The table's claims: every transaction it holds, for the occurrence that holds it. */
  lemma TableClaims(t: Table, x: string)
    requires Unique(t)
    ensures x in ClaimedBy(t) <==> exists k :: k in t && t[k].txn == Some(x)
    ensures forall k :: k in t && t[k].txn == Some(x) ==> ClaimedBy(t)[x] == Holder(k.item, k.day)
  {
    hide Holder;
  }

  /** A pass leaves at an occurrence what was decided for it, unless its row is the user's or nothing was. */
  lemma RecordedAt(kept: Table, decisions: seq<Decision>, k: Occurrence)
    requires Assignable(kept, decisions)
    ensures var after := Recorded(kept, Decided(decisions));
            if (exists txn :: Decision(k, txn) in decisions) && (k !in kept || kept[k].source == Auto)
            then k in after && after[k].source == Auto && after[k].txn.Some?
                 && Decision(k, after[k].txn.value) in decisions
            else (k in after <==> k in kept) && (k in kept ==> after[k] == kept[k])
    ensures forall txn, other :: Decision(k, txn) in decisions && Decision(k, other) in decisions ==> txn == other
  {
    DecidedIsExact(decisions);
    if txn :| Decision(k, txn) in decisions {
      var i :| 0 <= i < |decisions| && decisions[i] == Decision(k, txn);
      assert decisions[i].occurrence in Decided(decisions);
    }
  }

  /**
   A pass settles each occurrence it visits with the nearest transaction that could settle it. A row
   the user wrote stays, and so does whatever row there was where no transaction is nearest.
   */
  lemma PassSettlesWithTheNearest(t: Table, env: Env, n: nat)
    requires Unique(t) && DistinctItems(env.items) && LedgerKeyed(env.ledger) && n < |Visits(env.items, env.today)|
    ensures Unique(DropOrphans(t, env))
    ensures var (kept, after, v) := (DropOrphans(t, env), Pass(t, env).table, Visits(env.items, env.today)[n]);
            var k := Occurrence(v.item.id, v.day);
            var merchant := if v.item.id in Learned(kept, env) then Learned(kept, env)[v.item.id] else "";
            if (k in kept && kept[k].source == Manual)
               || !exists c :: IsNearestInLedger(env, v, merchant, ClaimsAt(kept, env, n), c)
            then (k in after <==> k in kept) && (k in kept ==> after[k] == kept[k])
            else exists c :: IsNearestInLedger(env, v, merchant, ClaimsAt(kept, env, n), c)
                             && k in after && after[k] == Row(Some(c.id), Auto)
  {
    hide Decisions, DropOrphans, Recorded, Visits, IsNearestInLedger, Learned, ClaimsAt, LedgerKeyed, Assignable,
         Decided, DistinctItems;
    DroppingKeepsUnique(t, env);
    PassWritesInFull(t, env);
    var kept := DropOrphans(t, env);
    var v := Visits(env.items, env.today)[n];
    var k := Occurrence(v.item.id, v.day);
    var merchant := if v.item.id in Learned(kept, env) then Learned(kept, env)[v.item.id] else "";
    DecisionsAreAssignable(kept, env);
    RecordedAt(kept, Decisions(kept, env), k);
    forall txn ensures Decision(k, txn) in Decisions(kept, env) <==>
                       exists c: Candidate :: c.id == txn
                                              && IsNearestInLedger(env, v, merchant, ClaimsAt(kept, env, n), c)
    {
      DecisionsAreTheNearest(kept, env, n, txn);
    }
    if c: Candidate :| IsNearestInLedger(env, v, merchant, ClaimsAt(kept, env, n), c) {
      assert Decision(k, c.id) in Decisions(kept, env);
    }
  }

  /** An occurrence the pass does not visit keeps the row it had once the orphans are dropped. */
  lemma UnvisitedKeepTheirRows(t: Table, env: Env, k: Occurrence)
    requires Unique(t) && DistinctItems(env.items) && LedgerKeyed(env.ledger)
    requires forall v :: v in Visits(env.items, env.today) ==> Occurrence(v.item.id, v.day) != k
    ensures var (kept, after) := (DropOrphans(t, env), Pass(t, env).table);
            (k in after <==> k in kept) && (k in kept ==> after[k] == kept[k])
  {
    hide DropOrphans, Recorded, Visits, Learned, LedgerKeyed, Assignable, Decided, ScanVisits, ClaimedBy;
    DroppingKeepsUnique(t, env);
    PassWritesInFull(t, env);
    var kept := DropOrphans(t, env);
    DecisionsAreAssignable(kept, env);
    RecordedAt(kept, Decisions(kept, env), k);
    VisitsAreDistinct(env.items, env.today);
    var visits := Visits(env.items, env.today);
    ScanKeepsClaims(env, Learned(kept, env), ClaimedBy(kept), visits);
    forall i | 0 <= i < |visits| ensures OccurrenceOf(visits[i]) != k {
      assert visits[i] in visits;
    }
    assert forall txn :: Decision(k, txn) !in Decisions(kept, env);
  }

  // --------------------------------------------------------------- teaching

  /** Within the years YYYY can hold, the latest by its text is the latest. */
  lemma LatestManualIsLatest(t: Table, k: Occurrence)
    requires forall l :: l in t ==> FourDigitYear(l.day)
    ensures IsLatestManual(t, k) <==>
            && k in t && t[k].source.Manual? && t[k].txn.Some?
            && forall l :: l in t && l.item == k.item && t[l].source.Manual? && t[l].txn.Some? ==> l.day <= k.day
  {
    hide OccurrenceKey, FourDigitYear;
    if k in t {
      forall l | l in t ensures TextAtMost(OccurrenceKey(l.day), OccurrenceKey(k.day)) <==> l.day <= k.day {
        KeysSortChronologically(l.day, k.day);
      }
    }
  }

  /** The item's latest hand-settled row is settled by the given ledger row. */
  ghost predicate IsTaughtBy(t: Table, item: string, k: Occurrence, row: LedgerRow) {
    && k in t && k.item == item && t[k].source.Manual? && t[k].txn == Some(row.candidate.id)
    && forall l :: l in t && l.item == item && t[l].source.Manual? && t[l].txn.Some? ==> l.day <= k.day
  }

  /** The item's latest hand-settled row names a ledger row of this merchant. */
  ghost predicate Teaches(t: Table, ledger: Ledger, item: string, merchant: string) {
    merchant != "" && exists k, row :: IsTaughtBy(t, item, k, row) && row in ledger
                                       && row.candidate.merchant == merchant
  }

  lemma {:induction false} FoundInLedger(ledger: Ledger, row: LedgerRow)
    requires LedgerKeyed(ledger) && row in ledger
    ensures FindByID(ledger, row.candidate.id) == Some(row.candidate)
  {
    var n := |ledger| - 1;
    if row != ledger[n] {
      assert row in ledger[..n];
      FoundInLedger(ledger[..n], row);
      var i :| 0 <= i < n && ledger[i] == row;
    }
  }

  lemma {:induction false} FoundIsInLedger(ledger: Ledger, id: string)
    ensures var found := FindByID(ledger, id);
            found.Some? ==> exists row :: row in ledger && row.candidate == found.value && found.value.id == id
  {
    if ledger != [] {
      FoundIsInLedger(ledger[..|ledger| - 1], id);
      assert ledger[|ledger| - 1] in ledger;
    }
  }

  lemma TaughtMerchantIsWhatTeaches(t: Table, ledger: Ledger, item: string, merchant: string)
    requires LedgerKeyed(ledger) && forall l :: l in t ==> FourDigitYear(l.day)
    ensures TaughtMerchant(t, ledger, item) == Some(merchant) <==> Teaches(t, ledger, item, merchant)
  {
    hide FindByID, LedgerKeyed, IsLatestManual, FourDigitYear;
    forall k | k in t {
      LatestManualIsLatest(t, k);
    }
    forall k, l | IsLatestManual(t, k) && IsLatestManual(t, l) && k.item == l.item ensures k == l {
      LatestManualIsUnique(t, k, l);
    }
    if TaughtMerchant(t, ledger, item) == Some(merchant) {
      var k :| k in t && k.item == item && IsLatestManual(t, k);
      FoundIsInLedger(ledger, t[k].txn.value);
      var row :| row in ledger && Some(row.candidate) == FindByID(ledger, t[k].txn.value);
      assert IsTaughtBy(t, item, k, row);
    }
    if Teaches(t, ledger, item, merchant) {
      var k, row :| IsTaughtBy(t, item, k, row) && row in ledger && row.candidate.merchant == merchant;
      assert IsLatestManual(t, k);
      FoundInLedger(ledger, row);
    }
  }

  /** An active item learned what its latest hand-settled row names, unless another active item was taught it too. */
  lemma LearnedIsWhatTeachesAlone(t: Table, env: Env, item: string, merchant: string)
    requires LedgerKeyed(env.ledger) && forall l :: l in t ==> FourDigitYear(l.day)
    ensures item in Learned(t, env) && Learned(t, env)[item] == merchant <==>
            && (exists i :: i in env.items && i.id == item) && Teaches(t, env.ledger, item, merchant)
            && forall other :: other in env.items && other.id != item ==> !Teaches(t, env.ledger, other.id, merchant)
  {
    hide TaughtMerchant, Teaches, LedgerKeyed, FourDigitYear;
    forall other ensures TaughtMerchant(t, env.ledger, other) == Some(merchant) <==>
                         Teaches(t, env.ledger, other, merchant)
    {
      TaughtMerchantIsWhatTeaches(t, env.ledger, other, merchant);
    }
    forall other: Item | other in env.items ensures other.id in ItemIDs(env.items) {
      var i :| 0 <= i < |env.items| && env.items[i] == other;
    }
  }

  // ---------------------------------------------------------------- orphans

  /**
   A pass drops a row exactly when it is dated from the earliest item's lookback to today and names a
   transaction no ledger row has.
   */
  lemma DroppedAreOrphaned(t: Table, env: Env, k: Occurrence, from: Date)
    requires k in t && FourDigitYear(k.day) && FourDigitYear(from) && FourDigitYear(env.today)
    requires from == EarliestLookback(env.items, env.today)
    ensures k !in DropOrphans(t, env) <==>
            && from <= k.day <= env.today && t[k].txn.Some?
            && forall row :: row in env.ledger ==> row.candidate.id != t[k].txn.value
  {
    hide OccurrenceKey, FourDigitYear, EarliestLookback;
    KeysSortChronologically(from, k.day);
    KeysSortChronologically(k.day, env.today);
  }
}
