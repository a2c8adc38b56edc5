/**
 What one resolution pass decides (src/internal/schedule/service.go, ResolveOccurrenceMatches,
 dropOrphanedMatches, learnedMerchants), as functions of the table, the active items, the
 day and the ledger; and what holds of every pass and of every run of the service's steps.
 */
module Resolution {
  import opened Common
  import opened Calendar
  import opened DateText
  import opened Text
  import opened Schedule
  import opened Windows
  import opened Matching
  import opened MatchStore

  // --------------------------------------------------------------- ledger

  /** A ledger row in this module's vocabulary; checking says whether it is on the checking account. */
  datatype LedgerRow = LedgerRow(candidate: Candidate, checking: bool)

  type Ledger = seq<LedgerRow>

  /** Transaction ids are the ledger's primary key and never empty. */
  ghost predicate LedgerKeyed(ledger: Ledger) {
    && (forall i, j :: 0 <= i < j < |ledger| ==> ledger[i].candidate.id != ledger[j].candidate.id)
    && (forall i :: 0 <= i < |ledger| ==> ledger[i].candidate.id != "")
  }

  /** The checking transactions dated in [from, to]. */
  function CheckingCandidates(ledger: Ledger, from: Date, to: Date): seq<Candidate> {
    if ledger == [] then []
    else
      var rest := CheckingCandidates(ledger[..|ledger| - 1], from, to);
      var row := ledger[|ledger| - 1];
      if row.checking && from <= row.candidate.date <= to then rest + [row.candidate] else rest
  }

  lemma {:induction false} CheckingCandidatesAreExact(ledger: Ledger, from: Date, to: Date)
    ensures forall c :: c in CheckingCandidates(ledger, from, to) <==>
            LedgerRow(c, true) in ledger && from <= c.date <= to
  {
    if ledger != [] {
      CheckingCandidatesAreExact(ledger[..|ledger| - 1], from, to);
      assert ledger == ledger[..|ledger| - 1] + [ledger[|ledger| - 1]];
    }
  }

  ghost predicate DistinctIDs(rows: seq<Candidate>) {
    forall i, j :: 0 <= i < j < |rows| ==> rows[i].id != rows[j].id
  }

  function FindByID(ledger: Ledger, id: string): (c: Option<Candidate>)
    ensures c.Some? ==> c.value.id == id
    ensures c.None? <==> forall i :: 0 <= i < |ledger| ==> ledger[i].candidate.id != id
  {
    if ledger == [] then None
    else if ledger[|ledger| - 1].candidate.id == id then Some(ledger[|ledger| - 1].candidate)
    else FindByID(ledger[..|ledger| - 1], id)
  }

  predicate Held(ledger: Ledger, id: string) {
    FindByID(ledger, id).Some?
  }

  /** TransactionsByID: the rows asked for, in the order asked, skipping what is gone. */
  function TransactionsByID(ledger: Ledger, ids: seq<string>): seq<Candidate> {
    if ids == [] then []
    else
      var rest := TransactionsByID(ledger, ids[..|ids| - 1]);
      var found := FindByID(ledger, ids[|ids| - 1]);
      if found.Some? then rest + [found.value] else rest
  }

  // ---------------------------------------------------------------- a pass

  /** What a pass reads besides its table: the active items, the day and the ledger. */
  datatype Env = Env(items: seq<Item>, today: Date, ledger: Ledger)

  function LookbackFrom(item: Item, today: Date): Date {
    if item.cadence.Biweekly? then today - 14 else AddMonthsClampedDate(today, -1)
  }

  /** earliestLookback: the start of the widest window any item looks back over. */
  function EarliestLookback(items: seq<Item>, today: Date): Date {
    if items == [] then today
    else Min(EarliestLookback(items[..|items| - 1], today), LookbackFrom(items[|items| - 1], today))
  }

  predicate Orphaned(row: Row, ledger: Ledger) {
    row.txn.Some? && !Held(ledger, row.txn.value)
  }

  /** dropOrphanedMatches: rows in the widest window whose transaction is gone, whatever their source. */
  function DropOrphans(t: Table, env: Env): Table {
    var from := EarliestLookback(env.items, env.today);
    map k | k in t && !(InTextRange(k.day, from, env.today) && Orphaned(t[k], env.ledger)) :: t[k]
  }

  /** The merchant behind an item's latest hand-settled occurrence, when the ledger still names one. */
  ghost function TaughtMerchant(t: Table, ledger: Ledger, item: string): Option<string> {
    if exists k :: k in t && k.item == item && IsLatestManual(t, k) then
      var k :| k in t && k.item == item && IsLatestManual(t, k);
      var found := FindByID(ledger, t[k].txn.value);
      if found.None? || found.value.merchant == "" then None else Some(found.value.merchant)
    else None
  }

  function ItemIDs(items: seq<Item>): set<string> {
    set i | 0 <= i < |items| :: items[i].id
  }

  /** learnedMerchants: what each active item was taught, unless another active item was taught the same. */
  ghost function Learned(t: Table, env: Env): map<string, string> {
    map i | i in ItemIDs(env.items)
            && TaughtMerchant(t, env.ledger, i).Some?
            && (forall j :: j in ItemIDs(env.items) && j != i ==>
                  TaughtMerchant(t, env.ledger, j) != TaughtMerchant(t, env.ledger, i))
      :: TaughtMerchant(t, env.ledger, i).value
  }

  function LearnedFor(learned: map<string, string>, item: string): string {
    if item in learned then learned[item] else ""
  }

  /** The claimed set a pass starts from: every stored transaction, with the occurrence holding it. */
  function ClaimedBy(t: Table): map<string, string>
    requires Unique(t)
  {
    map k | k in t && t[k].txn.Some? :: t[k].txn.value := Holder(k.item, k.day)
  }

  datatype Visit = Visit(item: Item, day: Date)

  function OccurrenceOf(v: Visit): Occurrence {
    Occurrence(v.item.id, v.day)
  }

  function VisitsOf(item: Item, days: seq<Date>): seq<Visit> {
    seq(|days|, i requires 0 <= i < |days| => Visit(item, days[i]))
  }

  /** The occurrences a pass scores, item by item, each item's in ascending order. */
  function Visits(items: seq<Item>, today: Date): seq<Visit> {
    if items == [] then []
    else
      var item := items[|items| - 1];
      Visits(items[..|items| - 1], today) + VisitsOf(item, Between(item, LookbackFrom(item, today), today))
  }

  function CandidatesFor(env: Env, item: Item): seq<Candidate> {
    CheckingCandidates(env.ledger, LookbackFrom(item, env.today) - MatchDateTolerance, env.today + MatchDateTolerance)
  }

  lemma CandidatesAreCheckingRows(env: Env, item: Item)
    ensures forall c :: c in CandidatesFor(env, item) ==> LedgerRow(c, true) in env.ledger
  {
    hide CheckingCandidates, LookbackFrom;
    CheckingCandidatesAreExact(env.ledger, LookbackFrom(item, env.today) - MatchDateTolerance,
                               env.today + MatchDateTolerance);
  }

  datatype Decision = Decision(occurrence: Occurrence, txn: string)

  datatype Scan = Scan(claimedBy: map<string, string>, decisions: seq<Decision>)

  ghost function Choice(env: Env, learned: map<string, string>, v: Visit,
                        claimedBy: map<string, string>): Option<Candidate>
  {
    Best(v.item, v.day, CandidatesFor(env, v.item), LearnedFor(learned, v.item.id), Holder(v.item.id, v.day), claimedBy)
  }

  /** The greedy walk: each visited occurrence claims its winner, and a claim is never given back. */
  ghost function ScanVisits(env: Env, learned: map<string, string>, claimed: map<string, string>,
                            visits: seq<Visit>): Scan
  {
    if visits == [] then Scan(claimed, [])
    else
      var before := ScanVisits(env, learned, claimed, visits[..|visits| - 1]);
      var v := visits[|visits| - 1];
      var winner := Choice(env, learned, v, before.claimedBy);
      if winner.None? then before
      else Scan(before.claimedBy[winner.value.id := Holder(v.item.id, v.day)],
                before.decisions + [Decision(OccurrenceOf(v), winner.value.id)])
  }

  /** RecordAutoMatches: each decision in turn, stopping at the first the index refuses. */
  function RecordAll(t: Table, decisions: seq<Decision>): Written {
    if decisions == [] then Written(t, true)
    else
      var before := RecordAll(t, decisions[..|decisions| - 1]);
      var d := decisions[|decisions| - 1];
      if !before.ok then before else UpsertAutoIn(before.table, d.occurrence, TxnParam(d.txn))
  }

  ghost function Decisions(t: Table, env: Env): seq<Decision>
    requires Unique(t)
  {
    ScanVisits(env, Learned(t, env), ClaimedBy(t), Visits(env.items, env.today)).decisions
  }

  lemma DroppingKeepsUnique(t: Table, env: Env)
    requires Unique(t)
    ensures Unique(DropOrphans(t, env))
  {
    hide InTextRange, Orphaned;
  }

  /** ResolveOccurrenceMatches: drop what is orphaned, decide, record. */
  ghost function Pass(t: Table, env: Env): Written
    requires Unique(t)
  {
    DroppingKeepsUnique(t, env);
    var kept := DropOrphans(t, env);
    RecordAll(kept, Decisions(kept, env))
  }

  // ------------------------------------------- one transaction, one occurrence

  ghost predicate DistinctVisits(visits: seq<Visit>) {
    forall i, j :: 0 <= i < j < |visits| ==> OccurrenceOf(visits[i]) != OccurrenceOf(visits[j])
  }

  lemma {:induction false} VisitsAreDistinct(items: seq<Item>, today: Date)
    requires DistinctItems(items)
    ensures DistinctVisits(Visits(items, today))
    ensures forall v :: v in Visits(items, today) ==>
              v.item in items && LookbackFrom(v.item, today) <= v.day <= today && IsOccurrence(v.item, v.day)
  {
    hide LookbackFrom, IsOccurrence;
    if items != [] {
      var n := |items| - 1;
      VisitsAreDistinct(items[..n], today);
      var days := Between(items[n], LookbackFrom(items[n], today), today);
      BetweenIsExact(items[n], LookbackFrom(items[n], today), today);
      var before, last := Visits(items[..n], today), VisitsOf(items[n], days);
      forall i, j | 0 <= i < j < |before + last|
        ensures OccurrenceOf((before + last)[i]) != OccurrenceOf((before + last)[j])
      {
        if i < |before| <= j {
          assert before[i] in before && before[i].item in items[..n];
        }
      }
      forall v | v in last ensures v.day in days && v.item == items[n] {
      }
    }
  }

  /** What every prefix of the walk keeps: nothing claimed is released, and no two decisions share anything. */
  ghost predicate ScanKeeps(claimed: map<string, string>, visits: seq<Visit>, s: Scan) {
    && (forall x :: x in claimed ==> x in s.claimedBy && s.claimedBy[x] == claimed[x])
    && (forall d :: d in s.decisions ==>
          && d.txn in s.claimedBy && s.claimedBy[d.txn] == Holder(d.occurrence.item, d.occurrence.day)
          && exists i :: 0 <= i < |visits| && OccurrenceOf(visits[i]) == d.occurrence)
    && (forall i, j :: 0 <= i < j < |s.decisions| ==>
          s.decisions[i].occurrence != s.decisions[j].occurrence && s.decisions[i].txn != s.decisions[j].txn)
  }

  lemma {:induction false} ScanKeepsClaims(env: Env, learned: map<string, string>, claimed: map<string, string>,
                                           visits: seq<Visit>)
    requires DistinctVisits(visits)
    ensures ScanKeeps(claimed, visits, ScanVisits(env, learned, claimed, visits))
  {
    hide Holder, CandidatesFor, Best, ScanKeeps, Eligible, LearnedFor;
    if visits == [] {
      NothingScanned(claimed);
    } else {
      var n := |visits| - 1;
      var before := ScanVisits(env, learned, claimed, visits[..n]);
      assert forall i :: 0 <= i < n ==> visits[..n][i] == visits[i];
      ScanKeepsClaims(env, learned, claimed, visits[..n]);
      var winner := Choice(env, learned, visits[n], before.claimedBy);
      if winner.Some? {
        ChoiceIsFree(env, learned, visits[n], before.claimedBy);
        ClaimingKeeps(claimed, visits, before, winner.value.id);
      } else {
        OneMoreVisitKeeps(claimed, visits, before);
      }
    }
  }

  lemma NothingScanned(claimed: map<string, string>)
    ensures ScanKeeps(claimed, [], Scan(claimed, []))
  {
  }

  lemma ChoiceIsFree(env: Env, learned: map<string, string>, v: Visit, claimedBy: map<string, string>)
    requires Choice(env, learned, v, claimedBy).Some?
    ensures !TakenElsewhere(claimedBy, Choice(env, learned, v, claimedBy).value.id, Holder(v.item.id, v.day))
  {
    hide Holder, CandidatesFor, Best, Admissible, LearnedFor;
  }

  lemma OneMoreVisitKeeps(claimed: map<string, string>, visits: seq<Visit>, s: Scan)
    requires visits != [] && ScanKeeps(claimed, visits[..|visits| - 1], s)
    ensures ScanKeeps(claimed, visits, s)
  {
    hide Holder;
    var n := |visits| - 1;
    forall d | d in s.decisions ensures exists i :: 0 <= i < |visits| && OccurrenceOf(visits[i]) == d.occurrence {
      var i :| 0 <= i < n && OccurrenceOf(visits[..n][i]) == d.occurrence;
      assert OccurrenceOf(visits[i]) == d.occurrence;
    }
  }

  lemma ClaimingKeeps(claimed: map<string, string>, visits: seq<Visit>, before: Scan, txn: string)
    requires visits != [] && DistinctVisits(visits)
    requires ScanKeeps(claimed, visits[..|visits| - 1], before)
    requires var v := visits[|visits| - 1]; !TakenElsewhere(before.claimedBy, txn, Holder(v.item.id, v.day))
    ensures var v := visits[|visits| - 1];
            ScanKeeps(claimed, visits,
                      Scan(before.claimedBy[txn := Holder(v.item.id, v.day)],
                           before.decisions + [Decision(OccurrenceOf(v), txn)]))
  {
    hide Holder;
    var n := |visits| - 1;
    var v := visits[n];
    forall d | d in before.decisions
      ensures d.occurrence != OccurrenceOf(v) && d.txn != txn
      ensures exists i :: 0 <= i < |visits| && OccurrenceOf(visits[i]) == d.occurrence
    {
      var i :| 0 <= i < n && OccurrenceOf(visits[..n][i]) == d.occurrence;
      assert OccurrenceOf(visits[i]) == d.occurrence;
      if d.txn == txn {
        HolderIsInjective(d.occurrence.item, d.occurrence.day, v.item.id, v.day);
      }
    }
  }

  /** Decisions the table can take as they come: no two alike, and none about a transaction held elsewhere. */
  ghost predicate Assignable(t: Table, decisions: seq<Decision>) {
    && (forall i, j :: 0 <= i < j < |decisions| ==>
          decisions[i].occurrence != decisions[j].occurrence && decisions[i].txn != decisions[j].txn)
    && (forall i :: 0 <= i < |decisions| ==>
          && decisions[i].txn != ""
          && forall k :: k in t && t[k].txn == Some(decisions[i].txn) ==> k == decisions[i].occurrence)
  }

  /** From any table the index accepts, a pass's decisions are pairwise distinct and conflict with no row. */
  lemma DecisionsAreAssignable(t: Table, env: Env)
    requires Unique(t) && DistinctItems(env.items) && LedgerKeyed(env.ledger)
    ensures Assignable(t, Decisions(t, env))
  {
    hide Holder, CandidatesFor, ScanVisits, Learned, Visits;
    var visits := Visits(env.items, env.today);
    var claimed := ClaimedBy(t);
    VisitsAreDistinct(env.items, env.today);
    ScanKeepsClaims(env, Learned(t, env), claimed, visits);
    var s := ScanVisits(env, Learned(t, env), claimed, visits);
    DecisionsNameLedgerRows(env, Learned(t, env), claimed, visits);
    forall i, k | 0 <= i < |s.decisions| && k in t && t[k].txn == Some(s.decisions[i].txn)
      ensures k == s.decisions[i].occurrence
    {
      var d := s.decisions[i];
      assert claimed[d.txn] == Holder(k.item, k.day);
      HolderIsInjective(k.item, k.day, d.occurrence.item, d.occurrence.day);
    }
  }

  lemma ChoiceIsALedgerRow(env: Env, learned: map<string, string>, v: Visit, claimedBy: map<string, string>)
    requires LedgerKeyed(env.ledger) && Choice(env, learned, v, claimedBy).Some?
    ensures var w := Choice(env, learned, v, claimedBy).value;
            Held(env.ledger, w.id) && w.id != "" && w in CandidatesFor(env, v.item)
  {
    hide Eligible, Best, LookbackFrom, CandidatesFor, LedgerKeyed, FindByID, LearnedFor, Holder;
    CandidatesAreCheckingRows(env, v.item);
    RowsAreHeld(env.ledger, Choice(env, learned, v, claimedBy).value);
  }

  lemma RowsAreHeld(ledger: Ledger, w: Candidate)
    requires LedgerKeyed(ledger) && LedgerRow(w, true) in ledger
    ensures Held(ledger, w.id) && w.id != ""
  {
    hide FindByID;
    var i :| 0 <= i < |ledger| && ledger[i] == LedgerRow(w, true);
  }

  lemma {:induction false} DecisionsNameLedgerRows(env: Env, learned: map<string, string>,
                                                   claimed: map<string, string>, visits: seq<Visit>)
    requires LedgerKeyed(env.ledger)
    ensures forall d :: d in ScanVisits(env, learned, claimed, visits).decisions ==>
            Held(env.ledger, d.txn) && d.txn != ""
  {
    hide Holder, Choice, Held, LedgerKeyed;
    if visits != [] {
      var before := ScanVisits(env, learned, claimed, visits[..|visits| - 1]);
      DecisionsNameLedgerRows(env, learned, claimed, visits[..|visits| - 1]);
      if Choice(env, learned, visits[|visits| - 1], before.claimedBy).Some? {
        ChoiceIsALedgerRow(env, learned, visits[|visits| - 1], before.claimedBy);
      }
    }
  }

  /** The decisions as a map from occurrence to transaction. */
  function Decided(decisions: seq<Decision>): map<Occurrence, string> {
    if decisions == [] then map[]
    else Decided(decisions[..|decisions| - 1])[decisions[|decisions| - 1].occurrence := decisions[|decisions| - 1].txn]
  }

  lemma {:induction false} DecidedIsExact(decisions: seq<Decision>)
    requires forall i, j :: 0 <= i < j < |decisions| ==> decisions[i].occurrence != decisions[j].occurrence
    ensures forall i :: 0 <= i < |decisions| ==>
              decisions[i].occurrence in Decided(decisions)
              && Decided(decisions)[decisions[i].occurrence] == decisions[i].txn
    ensures forall k :: k in Decided(decisions) ==> Decision(k, Decided(decisions)[k]) in decisions
  {
    if decisions != [] {
      DecidedIsExact(decisions[..|decisions| - 1]);
      assert decisions == decisions[..|decisions| - 1] + [decisions[|decisions| - 1]];
    }
  }

  /** What recording leaves: each decided occurrence not settled by hand holds its transaction, all else stands. */
  function Recorded(t: Table, decided: map<Occurrence, string>): Table {
    map k | k in t.Keys + decided.Keys ::
      if k in decided && (k !in t || t[k].source.Auto?) then Row(Some(decided[k]), Auto) else t[k]
  }

  /** No statement of the pass ever meets the index: every prefix of the decisions is written in full. */
  lemma {:induction false} RecordingNeverConflicts(t: Table, decisions: seq<Decision>)
    requires Unique(t) && Assignable(t, decisions)
    ensures RecordAll(t, decisions) == Written(Recorded(t, Decided(decisions)), true)
    ensures Unique(Recorded(t, Decided(decisions)))
  {
    if decisions == [] {
      assert Recorded(t, map[]) == t;
    } else {
      hide UpsertAutoIn, Unique;
      RecordingNeverConflicts(t, decisions[..|decisions| - 1]);
      RecordingOneMore(t, decisions);
    }
  }

  lemma RecordingOneMore(t: Table, decisions: seq<Decision>)
    requires decisions != [] && Assignable(t, decisions)
    requires Unique(Recorded(t, Decided(decisions[..|decisions| - 1])))
    ensures var d := decisions[|decisions| - 1];
            UpsertAutoIn(Recorded(t, Decided(decisions[..|decisions| - 1])), d.occurrence, TxnParam(d.txn)) ==
            Written(Recorded(t, Decided(decisions)), true)
    ensures Unique(Recorded(t, Decided(decisions)))
  {
    var n := |decisions| - 1;
    var d := decisions[n];
    var before := Recorded(t, Decided(decisions[..n]));
    FreeForTheNext(t, decisions);
    hide Assignable, HeldElsewhere, Recorded, UpsertAutoIn, Unique;
    RecordingOneRow(t, Decided(decisions[..n]), d.occurrence, d.txn);
    StatementsKeepUnique(before, d.occurrence, TxnParam(d.txn));
  }

  /** Behind the decisions before it, the last one's occurrence is undecided and its transaction free. */
  lemma FreeForTheNext(t: Table, decisions: seq<Decision>)
    requires decisions != [] && Assignable(t, decisions)
    ensures var (n, d) := (|decisions| - 1, decisions[|decisions| - 1]);
            && d.txn != "" && d.occurrence !in Decided(decisions[..n])
            && !HeldElsewhere(Recorded(t, Decided(decisions[..n])), Some(d.txn), d.occurrence)
  {
    hide Decided;
    var n := |decisions| - 1;
    var d := decisions[n];
    DecidedIsExact(decisions[..n]);
    assert forall x :: x in decisions[..n] ==> x.occurrence != d.occurrence && x.txn != d.txn;
  }

  lemma RecordingOneRow(t: Table, decided: map<Occurrence, string>, k: Occurrence, txn: string)
    requires k !in decided && txn != ""
    requires var before := Recorded(t, decided); !HeldElsewhere(before, Some(txn), k)
    ensures UpsertAutoIn(Recorded(t, decided), k, TxnParam(txn)) == Written(Recorded(t, decided[k := txn]), true)
  {
    hide HeldElsewhere;
    var before := Recorded(t, decided);
    assert k in before <==> k in t;
    var inserted := InsertAutoInto(before, k, Some(txn));
    HeldOnlyHere(before, k, Row(Some(txn), Auto));
    assert UpsertAutoIn(before, k, TxnParam(txn)).table == Recorded(t, decided[k := txn]);
  }

  lemma HeldOnlyHere(t: Table, k: Occurrence, row: Row)
    requires !HeldElsewhere(t, row.txn, k)
    ensures !HeldElsewhere(t[k := row], row.txn, k)
  {
  }

  /** A whole pass, from any table the index accepts: every write goes through, and the index holds after it. */
  lemma PassWritesInFull(t: Table, env: Env)
    requires Unique(t) && DistinctItems(env.items) && LedgerKeyed(env.ledger)
    ensures var kept := DropOrphans(t, env);
            && Unique(kept)
            && Pass(t, env) == Written(Recorded(kept, Decided(Decisions(kept, env))), true)
            && Unique(Pass(t, env).table)
  {
    hide Decisions, DropOrphans, DistinctItems, LedgerKeyed, Recorded, RecordAll, Decided;
    DroppingKeepsUnique(t, env);
    DecisionsAreAssignable(DropOrphans(t, env), env);
    RecordingNeverConflicts(DropOrphans(t, env), Decisions(DropOrphans(t, env), env));
  }

  // ------------------------------------------------------ learned merchants

  /** A learned merchant names one item: no two items are ever matched on the same descriptor. */
  lemma LearnedIsDistinctive(t: Table, env: Env, i: string, j: string)
    requires i in Learned(t, env) && j in Learned(t, env) && Learned(t, env)[i] == Learned(t, env)[j]
    ensures i == j
  {
    hide TaughtMerchant;
    assert TaughtMerchant(t, env.ledger, i) == TaughtMerchant(t, env.ledger, j);
  }

  ghost predicate SameByHand(t: Table, u: Table) {
    forall k :: (k in t && SettledByHand(t[k])) || (k in u && SettledByHand(u[k])) ==> k in t && k in u && t[k] == u[k]
  }

  /** Only hand-settled rows and the ledger teach: a pass can never change the test that an item uses. */
  lemma LearnedComesFromHandSettledRows(t: Table, u: Table, env: Env)
    requires SameByHand(t, u)
    ensures Learned(t, env) == Learned(u, env)
  {
    forall item: string ensures TaughtMerchant(t, env.ledger, item) == TaughtMerchant(u, env.ledger, item) {
      TaughtComesFromHandSettledRows(t, u, env.ledger, item);
    }
    hide TaughtMerchant;
  }

  lemma TaughtComesFromHandSettledRows(t: Table, u: Table, ledger: Ledger, item: string)
    requires SameByHand(t, u)
    ensures TaughtMerchant(t, ledger, item) == TaughtMerchant(u, ledger, item)
  {
    hide OccurrenceKey, TextAtMost;
    forall k ensures IsLatestManual(t, k) <==> IsLatestManual(u, k) {
    }
    forall k, l | IsLatestManual(t, k) && IsLatestManual(t, l) && k.item == item && l.item == item ensures k == l {
      LatestManualIsUnique(t, k, l);
    }
  }
}
