/**
 The table of occurrence decisions, and what each SQL statement does to it
 (src/internal/core/db/sqlc/schedule_matches.sql.go, src/internal/schedule/repo.go).

 A row is keyed by its occurrence: the item and the date, which the table holds in the
 text form of DateText.OccurrenceKey. At most one row may hold a transaction.
 */
module MatchStore {
  import opened Common
  import opened Calendar
  import opened DateText
  import opened Text

  datatype Occurrence = Occurrence(item: string, day: Date)

  datatype Source = Manual | Auto

  /** txn is None for NULL: the decision that nothing satisfied the occurrence. */
  datatype Row = Row(txn: Option<string>, source: Source)

  type Table = map<Occurrence, Row>

  datatype Match = Match(occurrence: Occurrence, row: Row)

  /** The partial unique index on transaction_id. */
  ghost predicate Unique(t: Table) {
    forall k, l :: k in t && l in t && t[k].txn.Some? && t[k].txn == t[l].txn ==> k == l
  }

  /** transactionIDParam: an empty id is written as NULL. */
  function TxnParam(id: string): Option<string> {
    if id == "" then None else Some(id)
  }

  predicate HeldElsewhere(t: Table, txn: Option<string>, k: Occurrence) {
    txn.Some? && exists l :: l in t && l != k && t[l].txn == txn
  }

  // What a statement leaves behind, and whether the index let it through.

  datatype Written = Written(table: Table, ok: bool)

  /** INSERT ... 'auto' ... ON CONFLICT (item_id, occurrence_date) DO NOTHING. */
  function InsertAutoInto(t: Table, k: Occurrence, txn: Option<string>): Written {
    if k in t then Written(t, true)
    else if HeldElsewhere(t, txn, k) then Written(t, false)
    else Written(t[k := Row(txn, Auto)], true)
  }

  /** UPDATE ... WHERE source = 'auto'. */
  function UpdateAutoIn(t: Table, k: Occurrence, txn: Option<string>): Written {
    if k !in t || t[k].source.Manual? then Written(t, true)
    else if HeldElsewhere(t, txn, k) then Written(t, false)
    else Written(t[k := Row(txn, Auto)], true)
  }

  /** INSERT ... 'manual' ... ON CONFLICT (item_id, occurrence_date) DO UPDATE. */
  function UpsertManualIn(t: Table, k: Occurrence, txn: Option<string>): Written {
    if HeldElsewhere(t, txn, k) then Written(t, false)
    else Written(t[k := Row(txn, Manual)], true)
  }

  /** UpsertAutoMatch: the insert, then the update unless the insert failed. */
  function UpsertAutoIn(t: Table, k: Occurrence, txn: Option<string>): Written {
    var inserted := InsertAutoInto(t, k, txn);
    if !inserted.ok then inserted else UpdateAutoIn(inserted.table, k, txn)
  }

  /** Each statement keeps the index, and no automatic one touches a manual row. */
  lemma StatementsKeepUnique(t: Table, k: Occurrence, txn: Option<string>)
    requires Unique(t)
    ensures Unique(InsertAutoInto(t, k, txn).table)
    ensures Unique(UpdateAutoIn(t, k, txn).table)
    ensures Unique(UpsertManualIn(t, k, txn).table)
    ensures Unique(UpsertAutoIn(t, k, txn).table)
  {
    if !HeldElsewhere(t, txn, k) {
      KeepUnique(t, k, Row(txn, Auto));
      KeepUnique(t, k, Row(txn, Manual));
    }
    var inserted := InsertAutoInto(t, k, txn).table;
    if !HeldElsewhere(inserted, txn, k) {
      KeepUnique(inserted, k, Row(txn, Auto));
    }
  }

  lemma KeepUnique(t: Table, k: Occurrence, row: Row)
    requires Unique(t) && !HeldElsewhere(t, row.txn, k)
    ensures Unique(t[k := row])
  {
  }

  /** BETWEEN on the stored texts, inclusive at both ends. */
  predicate InTextRange(day: Date, from: Date, to: Date) {
    TextAtMost(OccurrenceKey(from), OccurrenceKey(day)) && TextAtMost(OccurrenceKey(day), OccurrenceKey(to))
  }

  /** matches lists each row with the property once, in some order. */
  ghost predicate Lists(matches: seq<Match>, t: Table, keys: set<Occurrence>) {
    && keys <= t.Keys
    && (forall i, j :: 0 <= i < j < |matches| ==> matches[i].occurrence != matches[j].occurrence)
    && (forall i :: 0 <= i < |matches| ==> matches[i].occurrence in keys && matches[i].row == t[matches[i].occurrence])
    && (forall k :: k in keys ==> Match(k, t[k]) in matches)
  }

  /** ORDER BY item_id, occurrence_date: by the item's text, then by the date's. */
  predicate RowBefore(a: Occurrence, b: Occurrence) {
    if a.item != b.item then TextAtMost(a.item, b.item)
    else a.day != b.day && TextAtMost(OccurrenceKey(a.day), OccurrenceKey(b.day))
  }

  ghost predicate InRowOrder(matches: seq<Match>) {
    forall i, j :: 0 <= i < j < |matches| ==> RowBefore(matches[i].occurrence, matches[j].occurrence)
  }

  lemma RowOrderIsTotal(a: Occurrence, b: Occurrence)
    ensures a != b ==> RowBefore(a, b) || RowBefore(b, a)
  {
    hide OccurrenceKey, TextAtMost;
    TextOrderIsTotal(a.item, b.item);
    TextOrderIsTotal(OccurrenceKey(a.day), OccurrenceKey(b.day));
  }

  lemma RowOrderIsTransitive(a: Occurrence, b: Occurrence, c: Occurrence)
    requires RowBefore(a, b) && RowBefore(b, c)
    ensures RowBefore(a, c)
  {
    hide OccurrenceKey, TextAtMost;
    if a.item == b.item == c.item {
      TextOrderIsTransitive(OccurrenceKey(a.day), OccurrenceKey(b.day), OccurrenceKey(c.day));
      if a.day == c.day {
        TextOrderIsTotal(OccurrenceKey(a.day), OccurrenceKey(b.day));
        OccurrenceKeyIsInjective(a.day, b.day);
        assert false;
      }
    } else if a.item != b.item && b.item != c.item {
      TextOrderIsTransitive(a.item, b.item, c.item);
      if a.item == c.item {
        TextOrderIsTotal(a.item, b.item);
        assert false;
      }
    }
  }

  lemma RowsDiffer(a: Occurrence, b: Occurrence)
    requires RowBefore(a, b)
    ensures a != b
  {
  }

  /** Put a row into its place. */
  method InsertRow(matches: seq<Match>, m: Match) returns (longer: seq<Match>)
    requires InRowOrder(matches) && forall i :: 0 <= i < |matches| ==> matches[i].occurrence != m.occurrence
    ensures InRowOrder(longer) && forall l :: l in longer <==> l in matches || l == m
  {
    hide RowBefore;
    var k := 0;
    while k < |matches| && RowBefore(matches[k].occurrence, m.occurrence)
      invariant 0 <= k <= |matches|
      invariant forall i :: 0 <= i < k ==> RowBefore(matches[i].occurrence, m.occurrence)
    {
      k := k + 1;
    }
    longer := matches[..k] + [m] + matches[k..];
    forall i | k <= i < |matches| ensures RowBefore(m.occurrence, matches[i].occurrence) {
      RowOrderIsTotal(m.occurrence, matches[k].occurrence);
      if k < i {
        RowOrderIsTransitive(m.occurrence, matches[k].occurrence, matches[i].occurrence);
      }
    }
    assert matches == matches[..k] + matches[k..];
  }

  class Store {
    var rows: Table

    ghost predicate Valid()
      reads this
    {
      Unique(rows)
    }

    constructor ()
      ensures Valid() && rows == map[]
    {
      rows := map[];
    }

    method InsertAuto(k: Occurrence, txn: Option<string>) returns (ok: bool)
      requires Valid()
      modifies this
      ensures Valid() && Written(rows, ok) == InsertAutoInto(old(rows), k, txn)
      ensures k in old(rows) ==> ok && rows == old(rows)
      ensures k !in old(rows) ==>
                && (ok <==> txn.Some? ==> forall l :: l in old(rows) ==> old(rows)[l].txn != txn)
                && rows == if ok then old(rows)[k := Row(txn, Auto)] else old(rows)
    {
      StatementsKeepUnique(rows, k, txn);
      if k in rows {
        return true;
      }
      if HeldElsewhere(rows, txn, k) {
        return false;
      }
      rows := rows[k := Row(txn, Auto)];
      ok := true;
    }

    method UpdateAuto(k: Occurrence, txn: Option<string>) returns (ok: bool)
      requires Valid()
      modifies this
      ensures Valid() && Written(rows, ok) == UpdateAutoIn(old(rows), k, txn)
      ensures k !in old(rows) || old(rows)[k].source == Manual ==> ok && rows == old(rows)
      ensures k in old(rows) && old(rows)[k].source == Auto ==>
                && (ok <==> txn.Some? ==> forall l :: l in old(rows) && l != k ==> old(rows)[l].txn != txn)
                && rows == if ok then old(rows)[k := Row(txn, Auto)] else old(rows)
    {
      StatementsKeepUnique(rows, k, txn);
      if k !in rows || rows[k].source.Manual? {
        return true;
      }
      if HeldElsewhere(rows, txn, k) {
        return false;
      }
      rows := rows[k := Row(txn, Auto)];
      ok := true;
    }

    method UpsertManual(k: Occurrence, txn: Option<string>) returns (ok: bool)
      requires Valid()
      modifies this
      ensures Valid() && Written(rows, ok) == UpsertManualIn(old(rows), k, txn)
      ensures ok <==> txn.Some? ==> forall l :: l in old(rows) && l != k ==> old(rows)[l].txn != txn
      ensures rows == if ok then old(rows)[k := Row(txn, Manual)] else old(rows)
    {
      StatementsKeepUnique(rows, k, txn);
      if HeldElsewhere(rows, txn, k) {
        return false;
      }
      rows := rows[k := Row(txn, Manual)];
      ok := true;
    }

    method UpsertAuto(k: Occurrence, txn: Option<string>) returns (ok: bool)
      requires Valid()
      modifies this
      ensures Valid() && Written(rows, ok) == UpsertAutoIn(old(rows), k, txn)
      ensures k in old(rows) && old(rows)[k].source == Manual ==> ok && rows == old(rows)
      ensures k !in old(rows) || old(rows)[k].source == Auto ==>
                && (ok <==> txn.Some? ==> forall l :: l in old(rows) && l != k ==> old(rows)[l].txn != txn)
                && rows == if ok then old(rows)[k := Row(txn, Auto)] else old(rows)
    {
      ok := InsertAuto(k, txn);
      if ok {
        ok := UpdateAuto(k, txn);
      }
    }

    method DeleteMatch(k: Occurrence)
      requires Valid()
      modifies this
      ensures Valid() && rows == old(rows) - {k}
    {
      rows := rows - {k};
    }

    method DeleteMatchesForItem(item: string)
      requires Valid()
      modifies this
      ensures Valid() && rows == map k | k in old(rows) && k.item != item :: old(rows)[k]
    {
      rows := map k | k in rows && k.item != item :: rows[k];
    }

    method MatchesInRange(from: Date, to: Date) returns (matches: seq<Match>)
      ensures Lists(matches, rows, set k | k in rows && InTextRange(k.day, from, to))
      ensures InRowOrder(matches)
    {
      hide RowBefore, InTextRange;
      matches := [];
      var keys := set k | k in rows && InTextRange(k.day, from, to);
      var left := keys;
      while left != {}
        invariant left <= keys && InRowOrder(matches)
        invariant forall m :: m in matches <==> m.occurrence in keys - left && m.row == rows[m.occurrence]
        decreases left
      {
        var k :| k in left;
        matches := InsertRow(matches, Match(k, rows[k]));
        left := left - {k};
      }
      forall i, j | 0 <= i < j < |matches| ensures matches[i].occurrence != matches[j].occurrence {
        RowsDiffer(matches[i].occurrence, matches[j].occurrence);
      }
      assert forall k :: k in keys ==> Match(k, rows[k]) in matches;
    }

    method SettledMatches() returns (matches: seq<Match>)
      ensures Lists(matches, rows, set k | k in rows && rows[k].txn.Some?)
    {
      matches := ListRows(set k | k in rows && rows[k].txn.Some?);
    }

    /** The rows with the given keys, of a query that states no order. */
    method ListRows(keys: set<Occurrence>) returns (matches: seq<Match>)
      requires keys <= rows.Keys
      ensures Lists(matches, rows, keys)
    {
      matches := [];
      var left := keys;
      while left != {}
        invariant left <= keys
        invariant Lists(matches, rows, keys - left)
        decreases left
      {
        var k :| k in left;
        ghost var before := matches;
        matches := matches + [Match(k, rows[k])];
        left := left - {k};
        assert forall l :: l in keys - left ==> l == k || Match(l, rows[l]) in before;
        assert matches[|matches| - 1] == Match(k, rows[k]);
      }
      assert keys - left == keys;
    }

    /** LatestManualMatches: for each item with one, its most recent occurrence settled by hand. */
    method LatestManualMatches() returns (matches: seq<Match>)
      ensures Lists(matches, rows, set k | k in rows && IsLatestManual(rows, k))
    {
      matches := ListRows(set k | k in rows && IsLatestManual(rows, k));
    }
  }

  predicate SettledByHand(row: Row) {
    row.source.Manual? && row.txn.Some?
  }

  /** The row MAX(occurrence_date) selects within its item's group of hand-settled rows. */
  predicate IsLatestManual(t: Table, k: Occurrence) {
    && k in t && SettledByHand(t[k])
    && forall l :: l in t && l.item == k.item && SettledByHand(t[l]) ==>
         TextAtMost(OccurrenceKey(l.day), OccurrenceKey(k.day))
  }

  /** The maximum is one row: two dates with one text are one date. */
  lemma LatestManualIsUnique(t: Table, k: Occurrence, l: Occurrence)
    requires IsLatestManual(t, k) && IsLatestManual(t, l) && k.item == l.item
    ensures k == l
  {
    hide OccurrenceKey, TextAtMost;
    TextOrderIsTotal(OccurrenceKey(k.day), OccurrenceKey(l.day));
    OccurrenceKeyIsInjective(k.day, l.day);
  }
}
