/**
 The schedule service over its table (src/internal/schedule/service.go). The clock, the
 active items and the ledger port are parameters; each method leaves the table that
 Resolution and Runs define for it.
 */
module ScheduleService {
  import opened Common
  import opened Calendar
  import opened DateText
  import opened Text
  import opened Schedule
  import opened Windows
  import opened Matching
  import opened MatchStore
  import opened Resolution
  import opened Runs

  /** earliestLookback: one pass over the items, keeping the earliest start. */
  method EarliestOf(items: seq<Item>, today: Date) returns (from: Date)
    ensures from == EarliestLookback(items, today)
    ensures from <= today && forall i :: 0 <= i < |items| ==> from <= LookbackFrom(items[i], today)
    ensures from == today || exists i :: 0 <= i < |items| && from == LookbackFrom(items[i], today)
  {
    hide LookbackFrom;
    from := today;
    for i := 0 to |items|
      invariant from == EarliestLookback(items[..i], today) && from <= today
      invariant forall j :: 0 <= j < i ==> from <= LookbackFrom(items[j], today)
      invariant from == today || exists j :: 0 <= j < i && from == LookbackFrom(items[j], today)
    {
      assert items[..i + 1][..i] == items[..i];
      var start := LookbackFrom(items[i], today);
      if start < from {
        from := start;
      }
    }
    assert items[..|items|] == items;
  }

  // ------------------------------------------------------- reading the table

  lemma OnlyItsOwnDate(day: Date, own: Date)
    requires InTextRange(day, own, own)
    ensures day == own
  {
    hide OccurrenceKey, TextAtMost;
    TextOrderIsTotal(OccurrenceKey(day), OccurrenceKey(own));
    OccurrenceKeyIsInjective(day, own);
  }

  lemma OwnDateIsInRange(day: Date)
    ensures InTextRange(day, day, day)
  {
    TextOrderIsTotal(OccurrenceKey(day), OccurrenceKey(day));
  }

  /** Nothing else holds what an occurrence holds, so confirming it always goes through. */
  lemma ConfirmingGoesThrough(t: Table, k: Occurrence)
    requires Unique(t)
    ensures k in t && t[k].txn.Some? ==> forall l :: l in t && l != k ==> t[l].txn != t[k].txn
    ensures After(t, ConfirmStep(k)) == if k in t && t[k].txn.Some? then t[k := Row(t[k].txn, Manual)] else t
  {
  }

  /** Of the rows listed for one date, the item's is the occurrence's own. */
  lemma ListedForItsDate(matches: seq<Match>, t: Table, k: Occurrence)
    requires Lists(matches, t, set l | l in t && InTextRange(l.day, k.day, k.day))
    ensures forall i :: 0 <= i < |matches| && matches[i].occurrence.item == k.item ==>
              k in t && matches[i] == Match(k, t[k])
    ensures k in t ==> exists i :: 0 <= i < |matches| && matches[i] == Match(k, t[k])
  {
    hide InTextRange;
    forall i | 0 <= i < |matches| && matches[i].occurrence.item == k.item ensures matches[i].occurrence == k {
      OnlyItsOwnDate(matches[i].occurrence.day, k.day);
    }
    OwnDateIsInRange(k.day);
    assert k in t ==> Match(k, t[k]) in matches;
  }

  lemma {:induction false} StopsAtFirstRefusal(t: Table, decisions: seq<Decision>, n: nat)
    requires n <= |decisions| && !RecordAll(t, decisions[..n]).ok
    ensures RecordAll(t, decisions) == RecordAll(t, decisions[..n])
  {
    hide UpsertAutoIn;
    if n == |decisions| {
      assert decisions[..n] == decisions;
    } else {
      assert decisions[..|decisions| - 1][..n] == decisions[..n];
      StopsAtFirstRefusal(t, decisions[..|decisions| - 1], n);
    }
  }

  lemma {:induction false} TransactionsByIDAreHeld(ledger: Ledger, ids: seq<string>)
    ensures forall c :: c in TransactionsByID(ledger, ids) ==> c.id in ids && FindByID(ledger, c.id) == Some(c)
    ensures forall id :: id in ids && Held(ledger, id) ==> FindByID(ledger, id).value in TransactionsByID(ledger, ids)
  {
    hide FindByID;
    if ids != [] {
      TransactionsByIDAreHeld(ledger, ids[..|ids| - 1]);
      FoundByItsID(ledger, ids[|ids| - 1]);
      assert ids == ids[..|ids| - 1] + [ids[|ids| - 1]];
    }
  }

  lemma FoundByItsID(ledger: Ledger, id: string)
    ensures FindByID(ledger, id).Some? ==> FindByID(ledger, id).value.id == id
  {
  }

  lemma {:induction false} TransactionsByIDAreDistinct(ledger: Ledger, ids: seq<string>)
    requires forall i, j :: 0 <= i < j < |ids| ==> ids[i] != ids[j]
    ensures DistinctIDs(TransactionsByID(ledger, ids))
  {
    hide FindByID;
    if ids != [] {
      var rest := TransactionsByID(ledger, ids[..|ids| - 1]);
      TransactionsByIDAreDistinct(ledger, ids[..|ids| - 1]);
      TransactionsByIDAreHeld(ledger, ids[..|ids| - 1]);
      FoundByItsID(ledger, ids[|ids| - 1]);
      var held := TransactionsByID(ledger, ids);
      forall i, j | 0 <= i < j < |held| ensures held[i].id != held[j].id {
        assert rest[i] in rest;
        if j == |rest| {
          assert held[j].id == ids[|ids| - 1];
          var m :| 0 <= m < |ids| - 1 && ids[..|ids| - 1][m] == rest[i].id;
        }
      }
    }
  }

  /** The claimed set, from a settled row at a time. */
  method ClaimedFrom(store: Store) returns (claimedBy: map<string, string>)
    requires store.Valid()
    ensures store.Valid() && claimedBy == ClaimedBy(store.rows)
  {
    hide Holder, ClaimsOf, ClaimedBy, Lists;
    var settled := store.SettledMatches();
    claimedBy := map[];
    NoClaimsYet(settled);
    for i := 0 to |settled|
      invariant ClaimsOf(settled, i, claimedBy)
    {
      var m := settled[i];
      SettledHasTransaction(settled, store.rows, i);
      OneMoreClaim(settled, store.rows, i, claimedBy);
      claimedBy := claimedBy[m.row.txn.value := Holder(m.occurrence.item, m.occurrence.day)];
    }
    ClaimsAreClaimedBy(settled, store.rows, claimedBy);
  }

  /** The claims of the first n settled rows. */
  ghost predicate ClaimsOf(settled: seq<Match>, n: nat, claimedBy: map<string, string>)
    requires n <= |settled|
  {
    && (forall x :: x in claimedBy ==> exists j :: 0 <= j < n && settled[j].row.txn == Some(x))
    && forall j :: 0 <= j < n && settled[j].row.txn.Some? ==>
         var (x, k) := (settled[j].row.txn.value, settled[j].occurrence);
         x in claimedBy && claimedBy[x] == Holder(k.item, k.day)
  }

  lemma NoClaimsYet(settled: seq<Match>)
    ensures ClaimsOf(settled, 0, map[])
  {
  }

  lemma SettledHasTransaction(settled: seq<Match>, t: Table, i: nat)
    requires Lists(settled, t, set k | k in t && t[k].txn.Some?) && i < |settled|
    ensures settled[i].row.txn.Some?
  {
  }

  lemma OneMoreClaim(settled: seq<Match>, t: Table, i: nat, claimedBy: map<string, string>)
    requires Unique(t) && Lists(settled, t, set k | k in t && t[k].txn.Some?)
    requires i < |settled| && ClaimsOf(settled, i, claimedBy) && settled[i].row.txn.Some?
    ensures var (x, k) := (settled[i].row.txn.value, settled[i].occurrence);
            ClaimsOf(settled, i + 1, claimedBy[x := Holder(k.item, k.day)])
  {
    hide Holder;
    assert forall j :: 0 <= j < i ==> settled[j].row.txn != settled[i].row.txn;
  }

  lemma ClaimsAreClaimedBy(settled: seq<Match>, t: Table, claimedBy: map<string, string>)
    requires Unique(t) && Lists(settled, t, set k | k in t && t[k].txn.Some?)
    requires ClaimsOf(settled, |settled|, claimedBy)
    ensures claimedBy == ClaimedBy(t)
  {
    hide Holder;
    forall x ensures x in claimedBy <==> x in ClaimedBy(t) {
      if x in ClaimedBy(t) {
        var k :| k in t && t[k].txn == Some(x);
        assert Match(k, t[k]) in settled;
      }
    }
  }

  /** The orphaned rows among the first n listed. */
  function OrphansAmong(matches: seq<Match>, n: nat, ledger: Ledger): set<Occurrence>
    requires n <= |matches|
  {
    set j | 0 <= j < n && Orphaned(matches[j].row, ledger) :: matches[j].occurrence
  }

  lemma OrphansGrow(matches: seq<Match>, n: nat, ledger: Ledger)
    requires n < |matches|
    ensures OrphansAmong(matches, n + 1, ledger) ==
            OrphansAmong(matches, n, ledger)
            + (if Orphaned(matches[n].row, ledger) then {matches[n].occurrence} else {})
  {
    hide Orphaned;
  }

  lemma NoOrphansYet(matches: seq<Match>, ledger: Ledger)
    ensures OrphansAmong(matches, 0, ledger) == {}
  {
  }

  /** Deleting the orphans among the rows of the window leaves what DropOrphans leaves. */
  lemma DroppingListedOrphans(matches: seq<Match>, t: Table, env: Env)
    requires Lists(matches, t, set k | k in t && InTextRange(k.day, EarliestLookback(env.items, env.today), env.today))
    ensures t - OrphansAmong(matches, |matches|, env.ledger) == DropOrphans(t, env)
    ensures (forall i :: 0 <= i < |matches| ==> matches[i].row.txn.None?) ==> DropOrphans(t, env) == t
  {
    hide InTextRange, Orphaned;
    var from := EarliestLookback(env.items, env.today);
    forall k | k in t
      ensures k in OrphansAmong(matches, |matches|, env.ledger) <==>
              InTextRange(k.day, from, env.today) && Orphaned(t[k], env.ledger)
    {
      if InTextRange(k.day, from, env.today) {
        assert Match(k, t[k]) in matches;
      }
    }
    OrphansHaveTransactions(env.ledger);
  }

  lemma OrphansHaveTransactions(ledger: Ledger)
    ensures forall row: Row :: Orphaned(row, ledger) ==> row.txn.Some?
  {
  }

  // ---------------------------------------------------------- what was taught

  /** The hand-settled transaction behind each active item, keyed by the transaction. */
  ghost predicate TeachesWith(t: Table, active: set<string>, itemByTransaction: map<string, string>) {
    && (forall x :: x in itemByTransaction ==>
          exists k :: k in t && IsLatestManual(t, k) && k.item in active
                      && t[k].txn == Some(x) && k.item == itemByTransaction[x])
    && (forall k :: k in t && IsLatestManual(t, k) && k.item in active ==>
          t[k].txn.value in itemByTransaction && itemByTransaction[t[k].txn.value] == k.item)
  }

  method TeachingTransactions(store: Store, active: set<string>)
    returns (itemByTransaction: map<string, string>, ids: seq<string>)
    requires store.Valid()
    ensures TeachesWith(store.rows, active, itemByTransaction)
    ensures forall x :: x in ids <==> x in itemByTransaction
    ensures forall i, j :: 0 <= i < j < |ids| ==> ids[i] != ids[j]
  {
    hide OccurrenceKey, TextAtMost;
    var confirmed := store.LatestManualMatches();
    itemByTransaction, ids := map[], [];
    for i := 0 to |confirmed|
      invariant forall x :: x in ids <==> x in itemByTransaction
      invariant forall a, b :: 0 <= a < b < |ids| ==> ids[a] != ids[b]
      invariant forall x :: x in itemByTransaction ==>
                  exists j :: 0 <= j < i && confirmed[j].occurrence.item in active
                              && confirmed[j].row.txn == Some(x) && itemByTransaction[x] == confirmed[j].occurrence.item
      invariant forall j :: 0 <= j < i && confirmed[j].occurrence.item in active ==>
                  confirmed[j].row.txn.value in itemByTransaction
                  && itemByTransaction[confirmed[j].row.txn.value] == confirmed[j].occurrence.item
    {
      var m := confirmed[i];
      if m.occurrence.item !in active {
        continue;
      }
      itemByTransaction := itemByTransaction[m.row.txn.value := m.occurrence.item];
      ids := ids + [m.row.txn.value];
    }
    assert forall k :: k in store.rows && IsLatestManual(store.rows, k) ==> Match(k, store.rows[k]) in confirmed;
  }

  /** The items that learned a merchant. */
  function Claimers(learned: map<string, string>, merchant: string): set<string> {
    set i | i in learned && learned[i] == merchant
  }

  function ClaimCount(claimants: map<string, nat>, merchant: string): nat {
    if merchant in claimants then claimants[merchant] else 0
  }

  /** What the held transactions teach, each its own item. */
  function TaughtBy(itemByTransaction: map<string, string>, held: seq<Candidate>): map<string, string>
    requires forall i :: 0 <= i < |held| ==> held[i].id in itemByTransaction
  {
    if held == [] then map[]
    else
      var before := TaughtBy(itemByTransaction, held[..|held| - 1]);
      var c := held[|held| - 1];
      if c.merchant == "" then before else before[itemByTransaction[c.id] := c.merchant]
  }

  ghost predicate TeachOnce(itemByTransaction: map<string, string>, held: seq<Candidate>)
    requires forall i :: 0 <= i < |held| ==> held[i].id in itemByTransaction
  {
    forall i, j :: 0 <= i < j < |held| ==> itemByTransaction[held[i].id] != itemByTransaction[held[j].id]
  }

  lemma {:induction false} TaughtByIsExact(itemByTransaction: map<string, string>, held: seq<Candidate>)
    requires forall i :: 0 <= i < |held| ==> held[i].id in itemByTransaction
    requires TeachOnce(itemByTransaction, held)
    ensures forall c :: c in held && c.merchant != "" ==>
              itemByTransaction[c.id] in TaughtBy(itemByTransaction, held)
              && TaughtBy(itemByTransaction, held)[itemByTransaction[c.id]] == c.merchant
    ensures forall i :: i in TaughtBy(itemByTransaction, held) ==>
              exists c :: c in held && c.merchant != "" && itemByTransaction[c.id] == i
  {
    if held != [] {
      var n := |held| - 1;
      TaughtByIsExact(itemByTransaction, held[..n]);
      assert held == held[..n] + [held[n]];
      forall c | c in held[..n] ensures itemByTransaction[c.id] != itemByTransaction[held[n].id] {
        var i :| 0 <= i < n && held[i] == c;
      }
    }
  }

  /** Every held transaction with a merchant teaches its item, and counts once against that merchant. */
  method MerchantsTaught(itemByTransaction: map<string, string>, held: seq<Candidate>)
    returns (learned: map<string, string>, claimants: map<string, nat>)
    requires forall i :: 0 <= i < |held| ==> held[i].id in itemByTransaction
    requires TeachOnce(itemByTransaction, held)
    ensures learned == TaughtBy(itemByTransaction, held)
    ensures forall m :: ClaimCount(claimants, m) == |Claimers(learned, m)|
  {
    hide Claimers;
    learned, claimants := map[], map[];
    NoClaimers();
    for n := 0 to |held|
      invariant learned == TaughtBy(itemByTransaction, held[..n])
      invariant forall m :: ClaimCount(claimants, m) == |Claimers(learned, m)|
    {
      assert held[..n + 1][..n] == held[..n];
      var c := held[n];
      if c.merchant == "" {
        continue;
      }
      TaughtByIsExact(itemByTransaction, held[..n]);
      assert itemByTransaction[c.id] !in learned;
      OneMoreClaimer(learned, itemByTransaction[c.id], c.merchant);
      OneMoreCount(claimants, c.merchant);
      learned := learned[itemByTransaction[c.id] := c.merchant];
      claimants := claimants[c.merchant := ClaimCount(claimants, c.merchant) + 1];
    }
    assert held[..|held|] == held;
  }

  lemma OneMoreCount(claimants: map<string, nat>, merchant: string)
    ensures var more := claimants[merchant := ClaimCount(claimants, merchant) + 1];
            forall m :: ClaimCount(more, m) == ClaimCount(claimants, m) + (if m == merchant then 1 else 0)
  {
  }

  lemma NoClaimers()
    ensures forall m :: Claimers(map[], m) == {}
  {
  }

  lemma OneMoreClaimer(learned: map<string, string>, item: string, merchant: string)
    requires item !in learned
    ensures forall m ::
              |Claimers(learned[item := merchant], m)| == |Claimers(learned, m)| + (if m == merchant then 1 else 0)
  {
    hide Claimers;
    forall m
      ensures |Claimers(learned[item := merchant], m)| == |Claimers(learned, m)| + (if m == merchant then 1 else 0)
    {
      ClaimersWithOneMore(learned, item, merchant, m);
    }
  }

  lemma ClaimersWithOneMore(learned: map<string, string>, item: string, merchant: string, m: string)
    requires item !in learned
    ensures item !in Claimers(learned, m)
    ensures Claimers(learned[item := merchant], m) == Claimers(learned, m) + (if m == merchant then {item} else {})
  {
  }

  predicate Unshared(taught: map<string, string>, i: string)
    requires i in taught
  {
    forall j :: j in taught && j != i ==> taught[j] != taught[i]
  }

  /** A merchant two items claim identifies neither. */
  method DropShared(taught: map<string, string>, claimants: map<string, nat>) returns (learned: map<string, string>)
    requires forall m :: ClaimCount(claimants, m) == |Claimers(taught, m)|
    ensures learned == map i | i in taught && Unshared(taught, i) :: taught[i]
  {
    hide Claimers, ClaimCount, Unshared;
    learned := taught;
    var left := taught.Keys;
    while left != {}
      invariant left <= taught.Keys
      invariant learned == map i | i in taught && (i in left || Unshared(taught, i)) :: taught[i]
      decreases left
    {
      var i :| i in left;
      OneClaimer(taught, i);
      if ClaimCount(claimants, taught[i]) > 1 {
        learned := learned - {i};
      }
      left := left - {i};
    }
  }

  lemma OneClaimer(taught: map<string, string>, i: string)
    requires i in taught
    ensures |Claimers(taught, taught[i])| > 1 <==> !Unshared(taught, i)
  {
    var s := Claimers(taught, taught[i]);
    assert i in s && s == {i} + (s - {i});
    assert |s| == 1 + |s - {i}|;
    assert |s - {i}| > 0 <==> exists j :: j in s - {i};
    assert forall j :: j in s - {i} <==> j in taught && j != i && taught[j] == taught[i];
  }

  method LearnedFrom(store: Store, env: Env) returns (learned: map<string, string>)
    requires store.Valid()
    ensures learned == Learned(store.rows, env)
  {
    hide OccurrenceKey, TextAtMost, FindByID, IsLatestManual;
    var active := ItemIDs(env.items);
    var itemByTransaction, ids := TeachingTransactions(store, active);
    if |ids| == 0 {
      NothingTaught(store.rows, env, itemByTransaction);
      return map[];
    }
    var held := TransactionsByID(env.ledger, ids);
    TransactionsByIDAreHeld(env.ledger, ids);
    TransactionsByIDAreDistinct(env.ledger, ids);
    TeachersAreDistinct(store.rows, active, itemByTransaction);
    assert forall h :: 0 <= h < |held| ==> held[h] in held && held[h].id in itemByTransaction;
    assert TeachOnce(itemByTransaction, held) by {
      assert forall a, b :: 0 <= a < b < |held| ==> held[a].id != held[b].id;
    }
    var taught, claimants := MerchantsTaught(itemByTransaction, held);
    TaughtIsWhatTheItemsLearned(store.rows, env, itemByTransaction, ids, held);
    learned := DropShared(taught, claimants);
    SharedAreDropped(store.rows, env, taught);
  }

  /** Before shared merchants are dropped, an item is in the map exactly when it was taught. */
  lemma TaughtIsWhatTheItemsLearned(t: Table, env: Env, itemByTransaction: map<string, string>, ids: seq<string>,
                                    held: seq<Candidate>)
    requires TeachesWith(t, ItemIDs(env.items), itemByTransaction)
    requires held == TransactionsByID(env.ledger, ids)
    requires forall x :: x in ids <==> x in itemByTransaction
    requires forall i :: 0 <= i < |held| ==> held[i].id in itemByTransaction
    requires TeachOnce(itemByTransaction, held)
    ensures var taught := TaughtBy(itemByTransaction, held);
            forall i :: (i in taught <==> i in ItemIDs(env.items) && TaughtMerchant(t, env.ledger, i).Some?)
                        && (i in taught ==> TaughtMerchant(t, env.ledger, i) == Some(taught[i]))
  {
    hide IsLatestManual, FindByID, TaughtMerchant, TaughtBy, ItemIDs, TransactionsByID, TeachOnce;
    var taught := TaughtBy(itemByTransaction, held);
    TaughtByIsExact(itemByTransaction, held);
    TransactionsByIDAreHeld(env.ledger, ids);
    forall i
      ensures i in taught <==> i in ItemIDs(env.items) && TaughtMerchant(t, env.ledger, i).Some?
      ensures i in taught ==> TaughtMerchant(t, env.ledger, i) == Some(taught[i])
    {
      if i in taught {
        var c :| c in held && c.merchant != "" && itemByTransaction[c.id] == i;
        TaughtByItsTransaction(t, env.ledger, ItemIDs(env.items), itemByTransaction, c.id);
      } else if i in ItemIDs(env.items) && TaughtMerchant(t, env.ledger, i).Some? {
        var x := TransactionThatTaught(t, env.ledger, ItemIDs(env.items), itemByTransaction, i);
        FoundByItsID(env.ledger, x);
      }
    }
  }

  lemma SharedAreDropped(t: Table, env: Env, taught: map<string, string>)
    requires forall i :: (i in taught <==> i in ItemIDs(env.items) && TaughtMerchant(t, env.ledger, i).Some?)
                         && (i in taught ==> TaughtMerchant(t, env.ledger, i) == Some(taught[i]))
    ensures (map i | i in taught && Unshared(taught, i) :: taught[i]) == Learned(t, env)
  {
    hide TaughtMerchant, ItemIDs;
  }

  lemma NothingTaught(t: Table, env: Env, itemByTransaction: map<string, string>)
    requires TeachesWith(t, ItemIDs(env.items), itemByTransaction) && itemByTransaction == map[]
    ensures Learned(t, env) == map[]
  {
    hide IsLatestManual, FindByID;
  }

  lemma TeachersAreDistinct(t: Table, active: set<string>, itemByTransaction: map<string, string>)
    requires TeachesWith(t, active, itemByTransaction)
    ensures forall x, y :: x in itemByTransaction && y in itemByTransaction && x != y ==>
              itemByTransaction[x] != itemByTransaction[y]
  {
    hide IsLatestManual;
    forall x, y | x in itemByTransaction && y in itemByTransaction && itemByTransaction[x] == itemByTransaction[y]
      ensures x == y
    {
      var k :| k in t && IsLatestManual(t, k) && k.item in active && t[k].txn == Some(x)
          && k.item == itemByTransaction[x];
      var l :| l in t && IsLatestManual(t, l) && l.item in active && t[l].txn == Some(y)
          && l.item == itemByTransaction[y];
      LatestManualIsUnique(t, k, l);
    }
  }

  lemma TaughtByItsTransaction(t: Table, ledger: Ledger, active: set<string>, itemByTransaction: map<string, string>,
                               x: string)
    requires TeachesWith(t, active, itemByTransaction) && x in itemByTransaction
    ensures itemByTransaction[x] in active
    ensures TaughtMerchant(t, ledger, itemByTransaction[x]) ==
            var found := FindByID(ledger, x);
            if found.None? || found.value.merchant == "" then None else Some(found.value.merchant)
  {
    hide IsLatestManual, FindByID;
    var k :| k in t && IsLatestManual(t, k) && k.item in active && t[k].txn == Some(x)
        && k.item == itemByTransaction[x];
    forall l | l in t && IsLatestManual(t, l) && l.item == k.item ensures l == k {
      LatestManualIsUnique(t, k, l);
    }
  }

  lemma TransactionThatTaught(t: Table, ledger: Ledger, active: set<string>, itemByTransaction: map<string, string>,
                              i: string)
    returns (x: string)
    requires TeachesWith(t, active, itemByTransaction) && i in active && TaughtMerchant(t, ledger, i).Some?
    ensures x in itemByTransaction && itemByTransaction[x] == i && Held(ledger, x)
    ensures TaughtMerchant(t, ledger, i) == Some(FindByID(ledger, x).value.merchant)
            && FindByID(ledger, x).value.merchant != ""
  {
    hide IsLatestManual, FindByID;
    var k :| k in t && k.item == i && IsLatestManual(t, k);
    HandSettledHasTransaction(t, k);
    x := t[k].txn.value;
    TaughtByItsTransaction(t, ledger, active, itemByTransaction, x);
  }

  lemma HandSettledHasTransaction(t: Table, k: Occurrence)
    requires IsLatestManual(t, k)
    ensures k in t && t[k].txn.Some?
  {
  }

  // ------------------------------------------------------------- the walk

  lemma LookbackInstants(item: Item, today: Date)
    ensures CeilDay(OneCadenceBefore(item, Midnight(today))) == LookbackFrom(item, today)
    ensures DayOf(Midnight(today)) == today
  {
    hide AddMonthsClampedDate;
    LookbackDates(item, Midnight(today));
    MidnightOrder(today, 0);
  }

  lemma NoVisits(env: Env, learned: map<string, string>, claimed: map<string, string>)
    ensures ScanVisits(env, learned, claimed, Visits(env.items[..0], env.today)) == Scan(claimed, [])
  {
  }

  lemma VisitsNone(before: seq<Visit>, item: Item, days: seq<Date>)
    ensures before + VisitsOf(item, days[..0]) == before
  {
  }

  lemma ScanOneMore(env: Env, learned: map<string, string>, claimed: map<string, string>, before: seq<Visit>,
                    item: Item, days: seq<Date>, j: nat)
    requires j < |days|
    ensures var s := ScanVisits(env, learned, claimed, before + VisitsOf(item, days[..j]));
            var winner := Best(item, days[j], CandidatesFor(env, item), LearnedFor(learned, item.id),
                               Holder(item.id, days[j]), s.claimedBy);
            ScanVisits(env, learned, claimed, before + VisitsOf(item, days[..j + 1])) ==
            if winner.None? then s
            else Scan(s.claimedBy[winner.value.id := Holder(item.id, days[j])],
                      s.decisions + [Decision(Occurrence(item.id, days[j]), winner.value.id)])
  {
    hide Best, Holder, CandidatesFor;
    var all := before + VisitsOf(item, days[..j + 1]);
    assert all[..|all| - 1] == before + VisitsOf(item, days[..j]);
    assert all[|all| - 1] == Visit(item, days[j]);
  }

  lemma VisitsOneMore(items: seq<Item>, i: nat, today: Date, days: seq<Date>)
    requires i < |items| && days == Between(items[i], LookbackFrom(items[i], today), today)
    ensures Visits(items[..i + 1], today) == Visits(items[..i], today) + VisitsOf(items[i], days[..|days|])
  {
    assert items[..i + 1][..i] == items[..i];
    assert days[..|days|] == days;
  }

  lemma DecisionsAre(t: Table, env: Env, learned: map<string, string>, claimed: map<string, string>)
    requires Unique(t) && learned == Learned(t, env) && claimed == ClaimedBy(t)
    ensures ScanVisits(env, learned, claimed, Visits(env.items[..|env.items|], env.today)).decisions ==
            Decisions(t, env)
  {
    assert env.items[..|env.items|] == env.items;
  }

  /** SettledSet: the texts of one item's settled dates, none for an item it does not mention. */
  function KeysOf(byItem: map<string, set<string>>, item: string): set<string> {
    if item in byItem then byItem[item] else {}
  }

  lemma OneMoreKey(byItem: map<string, set<string>>, item: string, key: string)
    ensures var more := byItem[item := KeysOf(byItem, item) + {key}];
            forall id :: KeysOf(more, id) == KeysOf(byItem, id) + (if id == item then {key} else {})
    ensures forall id :: KeysOf(map[], id) == {}
  {
  }

  /** The texts of an item's settled dates among the first n rows. */
  function SettledKeys(matches: seq<Match>, n: nat, item: string): set<string>
    requires n <= |matches|
  {
    set j | 0 <= j < n && matches[j].row.txn.Some? && matches[j].occurrence.item == item
      :: OccurrenceKey(matches[j].occurrence.day)
  }

  lemma NoSettledKeys(matches: seq<Match>)
    ensures forall item :: SettledKeys(matches, 0, item) == {}
  {
  }

  lemma SettledKeysGrow(matches: seq<Match>, n: nat)
    requires n < |matches|
    ensures forall item ::
              SettledKeys(matches, n + 1, item) == SettledKeys(matches, n, item) +
              if matches[n].row.txn.Some? && matches[n].occurrence.item == item
              then {OccurrenceKey(matches[n].occurrence.day)} else {}
  {
    hide OccurrenceKey;
  }

  lemma KeysOfListedRows(matches: seq<Match>, t: Table, from: Date, to: Date, id: string, day: Date)
    requires Lists(matches, t, set k | k in t && InTextRange(k.day, from, to))
    ensures OccurrenceKey(day) in SettledKeys(matches, |matches|, id) <==>
            (Occurrence(id, day) in t && t[Occurrence(id, day)].txn.Some? && InTextRange(day, from, to))
  {
    hide InTextRange, OccurrenceKey;
    if OccurrenceKey(day) in SettledKeys(matches, |matches|, id) {
      var j :| 0 <= j < |matches| && matches[j].row.txn.Some?
               && matches[j].occurrence.item == id && OccurrenceKey(matches[j].occurrence.day) == OccurrenceKey(day);
      OccurrenceKeyIsInjective(matches[j].occurrence.day, day);
    }
    if Occurrence(id, day) in t && InTextRange(day, from, to) {
      assert Match(Occurrence(id, day), t[Occurrence(id, day)]) in matches;
    }
  }

  class Service {
    const store: Store

    constructor (store: Store)
      ensures this.store == store
    {
      this.store := store;
    }

    method MatchOccurrence(k: Occurrence, txn: string) returns (ok: bool)
      requires store.Valid()
      modifies store
      ensures store.Valid() && store.rows == After(old(store.rows), MatchStep(k, txn))
      ensures ok <==> txn != "" ==> forall l :: l in old(store.rows) && l != k ==> old(store.rows)[l].txn != Some(txn)
      ensures store.rows == if ok then old(store.rows)[k := Row(if txn == "" then None else Some(txn), Manual)]
                            else old(store.rows)
    {
      ok := store.UpsertManual(k, TxnParam(txn));
    }

    method ClearOccurrence(k: Occurrence) returns (ok: bool)
      requires store.Valid()
      modifies store
      ensures store.Valid() && store.rows == After(old(store.rows), ClearStep(k)) && ok
      ensures store.rows == old(store.rows)[k := Row(None, Manual)]
    {
      ok := store.UpsertManual(k, None);
    }

    /** ConfirmOccurrence: the settled row a range query for its one date returns, written back as the user's. */
    method ConfirmOccurrence(k: Occurrence) returns (ok: bool)
      requires store.Valid()
      modifies store
      ensures store.Valid() && store.rows == After(old(store.rows), ConfirmStep(k)) && ok
      ensures store.rows == if k in old(store.rows) && old(store.rows)[k].txn.Some?
                            then old(store.rows)[k := Row(old(store.rows)[k].txn, Manual)] else old(store.rows)
    {
      hide InTextRange, HeldElsewhere, After, Unique, Lists, UpsertManualIn;
      var matches := store.MatchesInRange(k.day, k.day);
      ListedForItsDate(matches, store.rows, k);
      ConfirmingGoesThrough(store.rows, k);
      for i := 0 to |matches|
        invariant store.rows == old(store.rows)
        invariant forall j :: 0 <= j < i ==> matches[j].occurrence.item != k.item || matches[j].row.txn.None?
      {
        var m := matches[i];
        if m.occurrence.item != k.item || m.row.txn.None? {
          continue;
        }
        ok := store.UpsertManual(k, m.row.txn);
        return;
      }
      ok := true;
    }

    method DeleteItem(item: string)
      requires store.Valid()
      modifies store
      ensures store.Valid() && store.rows == After(old(store.rows), DeleteItemStep(item))
      ensures store.rows == map k | k in old(store.rows) && k.item != item :: old(store.rows)[k]
    {
      store.DeleteMatchesForItem(item);
    }

    method RecordAutoMatches(decisions: seq<Decision>) returns (ok: bool)
      requires store.Valid()
      modifies store
      ensures store.Valid() && Written(store.rows, ok) == RecordAll(old(store.rows), decisions)
    {
      hide UpsertAutoIn;
      ok := true;
      for i := 0 to |decisions|
        invariant store.Valid() && ok
        invariant Written(store.rows, true) == RecordAll(old(store.rows), decisions[..i])
      {
        assert decisions[..i + 1][..i] == decisions[..i];
        ok := store.UpsertAuto(decisions[i].occurrence, TxnParam(decisions[i].txn));
        if !ok {
          StopsAtFirstRefusal(old(store.rows), decisions, i + 1);
          return;
        }
      }
      assert decisions[..|decisions|] == decisions;
    }

    /** dropOrphanedMatches: one ledger read for every settled row of the window, then a delete per orphan. */
    method DropOrphanedMatches(env: Env)
      requires store.Valid()
      modifies store
      ensures store.Valid() && store.rows == DropOrphans(old(store.rows), env)
    {
      hide InTextRange, OrphansAmong, DropOrphans, Lists, Unique, InRowOrder, TransactionsByID, FindByID, LookbackFrom,
           EarliestLookback;
      var from := EarliestOf(env.items, env.today);
      var matches := store.MatchesInRange(from, env.today);
      ghost var was := store.rows;
      var ids: seq<string> := [];
      for i := 0 to |matches|
        invariant store.rows == was
        invariant forall j :: 0 <= j < i && matches[j].row.txn.Some? ==> matches[j].row.txn.value in ids
        invariant ids == [] ==> forall j :: 0 <= j < i ==> matches[j].row.txn.None?
      {
        if matches[i].row.txn.Some? {
          ids := ids + [matches[i].row.txn.value];
        }
      }
      if |ids| == 0 {
        DroppingListedOrphans(matches, was, env);
        return;
      }
      var held := TransactionsByID(env.ledger, ids);
      TransactionsByIDAreHeld(env.ledger, ids);
      var alive := set c | c in held :: c.id;
      NoOrphansYet(matches, env.ledger);
      for i := 0 to |matches|
        invariant store.Valid()
        invariant store.rows == was - OrphansAmong(matches, i, env.ledger)
      {
        var m := matches[i];
        OrphansGrow(matches, i, env.ledger);
        assert m.row.txn.Some? ==> (m.row.txn.value in alive <==> Held(env.ledger, m.row.txn.value));
        if m.row.txn.None? || m.row.txn.value in alive {
          continue;
        }
        store.DeleteMatch(m.occurrence);
      }
      DroppingListedOrphans(matches, was, env);
    }

    /** learnedMerchants: what each active item was taught by hand, less every merchant two of them share. */
    method LearnedMerchants(env: Env) returns (learned: map<string, string>)
      requires store.Valid()
      ensures learned == Learned(store.rows, env)
    {
      hide *;
      learned := LearnedFrom(store, env);
    }

    /** ResolveOccurrenceMatches; without a ledger it resolves nothing. */
    method ResolveOccurrenceMatches(items: seq<Item>, today: Date, ledger: Option<Ledger>) returns (ok: bool)
      requires store.Valid()
      modifies store
      ensures store.Valid()
      ensures ledger.None? ==> ok && store.rows == old(store.rows)
      ensures ledger.Some? ==>
                Written(store.rows, ok) == Pass(old(store.rows), Env(items, today, ledger.value))
    {
      if ledger.None? {
        return true;
      }
      var env := Env(items, today, ledger.value);
      DropOrphanedMatches(env);
      var learned := LearnedMerchants(env);
      var decisions := Decide(env, learned);
      ok := RecordAutoMatches(decisions);
    }

    /** The greedy pass: it reads the table once, and claims as it goes. */
    method Decide(env: Env, learned: map<string, string>) returns (decisions: seq<Decision>)
      requires store.Valid() && learned == Learned(store.rows, env)
      ensures decisions == Decisions(store.rows, env)
    {
      assert Unique(store.rows);
      hide *;
      var claimedBy := ClaimedFrom(store);
      ghost var claimed := claimedBy;
      decisions := [];
      NoVisits(env, learned, claimed);
      for i := 0 to |env.items|
        invariant Scan(claimedBy, decisions) == ScanVisits(env, learned, claimed, Visits(env.items[..i], env.today))
      {
        var item := env.items[i];
        var from := LookbackFrom(item, env.today);
        var candidates := CandidatesFor(env, item);
        LookbackInstants(item, env.today);
        var occurrences := Occurrences(item, OneCadenceBefore(item, Midnight(env.today)), Midnight(env.today));
        ghost var before := Visits(env.items[..i], env.today);
        VisitsNone(before, item, occurrences);
        for j := 0 to |occurrences|
          invariant Scan(claimedBy, decisions) ==
                    ScanVisits(env, learned, claimed, before + VisitsOf(item, occurrences[..j]))
        {
          var occurrence := occurrences[j];
          var holder := Holder(item.id, occurrence);
          ScanOneMore(env, learned, claimed, before, item, occurrences, j);
          var winner := BestCandidate(item, occurrence, candidates, LearnedFor(learned, item.id), holder, claimedBy);
          if winner.None? {
            continue;
          }
          claimedBy := claimedBy[winner.value.id := holder];
          decisions := decisions + [Decision(Occurrence(item.id, occurrence), winner.value.id)];
        }
        VisitsOneMore(env.items, i, env.today, occurrences);
      }
      DecisionsAre(store.rows, env, learned, claimed);
    }

    /** SettledOccurrences: the settled rows of a text range, grouped by item. */
    method SettledOccurrences(from: Date, to: Date) returns (byItem: map<string, set<string>>)
      ensures forall id, day ::
                OccurrenceKey(day) in KeysOf(byItem, id) <==>
                Occurrence(id, day) in store.rows && store.rows[Occurrence(id, day)].txn.Some?
                    && InTextRange(day, from, to)
    {
      hide InTextRange, OccurrenceKey, SettledKeys, KeysOf;
      var matches := store.MatchesInRange(from, to);
      byItem := map[];
      NoSettledKeys(matches);
      OneMoreKey(byItem, "", "");
      for i := 0 to |matches|
        invariant forall id :: KeysOf(byItem, id) == SettledKeys(matches, i, id)
      {
        var m := matches[i];
        SettledKeysGrow(matches, i);
        if m.row.txn.None? {
          continue;
        }
        OneMoreKey(byItem, m.occurrence.item, OccurrenceKey(m.occurrence.day));
        byItem := byItem[m.occurrence.item := KeysOf(byItem, m.occurrence.item) + {OccurrenceKey(m.occurrence.day)}];
      }
      forall id, day
        ensures OccurrenceKey(day) in KeysOf(byItem, id) <==>
                Occurrence(id, day) in store.rows && store.rows[Occurrence(id, day)].txn.Some?
                    && InTextRange(day, from, to)
      {
        KeysOfListedRows(matches, store.rows, from, to, id, day);
      }
    }
  }
}
