/**
 Whole runs of the steps that write the decision table: the user's match, clear, confirm and
 item deletion, recorded automatic decisions, and resolution passes over whatever the
 items, day and ledger are at the time (src/internal/schedule/service.go).
 */
module Runs {
  import opened Common
  import opened MatchStore
  import opened Resolution

  datatype Step =
    | MatchStep(k: Occurrence, txn: string)
    | ClearStep(k: Occurrence)
    | ConfirmStep(k: Occurrence)
    | DeleteItemStep(item: string)
    | RecordAutoStep(decisions: seq<Decision>)
    | ResolveStep(env: Env)

  /** ConfirmOccurrence: a settled row becomes the user's own; an unsettled one is left alone. */
  function Confirmed(t: Table, k: Occurrence): Table {
    if k in t && t[k].txn.Some? then UpsertManualIn(t, k, t[k].txn).table else t
  }

  function WithoutItem(t: Table, item: string): Table {
    map k | k in t && k.item != item :: t[k]
  }

  /** The table a step leaves. A statement the index refuses leaves the table as it was. */
  ghost function After(t: Table, step: Step): Table
    requires Unique(t)
  {
    match step
    case MatchStep(k, txn) => UpsertManualIn(t, k, TxnParam(txn)).table
    case ClearStep(k) => UpsertManualIn(t, k, None).table
    case ConfirmStep(k) => Confirmed(t, k)
    case DeleteItemStep(item) => WithoutItem(t, item)
    case RecordAutoStep(decisions) => RecordAll(t, decisions).table
    case ResolveStep(env) => Pass(t, env).table
  }

  lemma {:induction false} RecordingKeepsUnique(t: Table, decisions: seq<Decision>)
    requires Unique(t)
    ensures Unique(RecordAll(t, decisions).table)
  {
    if decisions != [] {
      RecordingKeepsUnique(t, decisions[..|decisions| - 1]);
      var d := decisions[|decisions| - 1];
      StatementsKeepUnique(RecordAll(t, decisions[..|decisions| - 1]).table, d.occurrence, TxnParam(d.txn));
    }
  }

  /** No step, whatever it is asked, ever leaves a transaction settling two occurrences. */
  lemma StepKeepsUnique(t: Table, step: Step)
    requires Unique(t)
    ensures Unique(After(t, step))
  {
    hide HeldElsewhere;
    match step
    case MatchStep(k, txn) => StatementsKeepUnique(t, k, TxnParam(txn));
    case ClearStep(k) => StatementsKeepUnique(t, k, None);
    case ConfirmStep(k) =>
      if k in t {
        StatementsKeepUnique(t, k, t[k].txn);
      }
    case DeleteItemStep(item) =>
    case RecordAutoStep(decisions) => RecordingKeepsUnique(t, decisions);
    case ResolveStep(env) =>
      DroppingKeepsUnique(t, env);
      RecordingKeepsUnique(DropOrphans(t, env), Decisions(DropOrphans(t, env), env));
  }

  // ------------------------------------------------------ manual precedence

  lemma {:induction false} RecordingLeavesManualRows(t: Table, decisions: seq<Decision>, k: Occurrence)
    requires k in t && t[k].source.Manual?
    ensures k in RecordAll(t, decisions).table && RecordAll(t, decisions).table[k] == t[k]
  {
    hide HeldElsewhere;
    if decisions != [] {
      RecordingLeavesManualRows(t, decisions[..|decisions| - 1], k);
    }
  }

  /** The only steps that may change a manual row: the user on it, its item's deletion, or its transaction gone. */
  predicate MayChange(step: Step, k: Occurrence, row: Row) {
    match step
    case MatchStep(l, _) => l == k
    case ClearStep(l) => l == k
    case ConfirmStep(_) => false
    case DeleteItemStep(item) => item == k.item
    case RecordAutoStep(_) => false
    case ResolveStep(env) => Orphaned(row, env.ledger)
  }

  lemma StepLeavesManualRow(t: Table, step: Step, k: Occurrence)
    requires Unique(t) && k in t && t[k].source.Manual? && !MayChange(step, k, t[k])
    ensures k in After(t, step) && After(t, step)[k] == t[k]
  {
    hide HeldElsewhere, Orphaned, Decisions, InTextRange;
    match step
    case MatchStep(l, txn) =>
    case ClearStep(l) =>
    case ConfirmStep(l) =>
    case DeleteItemStep(item) =>
    case RecordAutoStep(decisions) => RecordingLeavesManualRows(t, decisions, k);
    case ResolveStep(env) =>
      DroppingKeepsUnique(t, env);
      RecordingLeavesManualRows(DropOrphans(t, env), Decisions(DropOrphans(t, env), env), k);
  }

  ghost function AfterRun(t: Table, run: seq<Step>): Table
    requires Unique(t)
    ensures Unique(AfterRun(t, run))
  {
    if run == [] then t
    else
      var before := AfterRun(t, run[..|run| - 1]);
      StepKeepsUnique(before, run[|run| - 1]);
      After(before, run[|run| - 1])
  }

  /**
   Across any interleaving of steps, a manual row, a clear included, stands as the user left
   it until the user acts on that occurrence, its item is deleted, or the transaction it
   names is gone from the ledger a pass reads.
   */
  lemma {:induction false} ManualRowStands(t: Table, run: seq<Step>, k: Occurrence)
    requires Unique(t) && k in t && t[k].source.Manual?
    requires forall i :: 0 <= i < |run| ==> !MayChange(run[i], k, t[k])
    ensures k in AfterRun(t, run) && AfterRun(t, run)[k] == t[k]
  {
    hide After, MayChange;
    if run != [] {
      ManualRowStands(t, run[..|run| - 1], k);
      StepLeavesManualRow(AfterRun(t, run[..|run| - 1]), run[|run| - 1], k);
    }
  }

  /** A clear names no transaction, so no pass over any ledger ever undoes it. */
  lemma ClearOutlivesEveryPass(t: Table, k: Occurrence, passes: seq<Env>)
    requires Unique(t)
    ensures var cleared := After(t, ClearStep(k));
            && Unique(cleared)
            && var run := seq(|passes|, i requires 0 <= i < |passes| => ResolveStep(passes[i]));
               k in AfterRun(cleared, run) && AfterRun(cleared, run)[k] == Row(None, Manual)
  {
    StepKeepsUnique(t, ClearStep(k));
    var cleared := After(t, ClearStep(k));
    var run := seq(|passes|, i requires 0 <= i < |passes| => ResolveStep(passes[i]));
    ManualRowStands(cleared, run, k);
  }

  /** Confirming freezes: the match survives every later pass that still finds its transaction. */
  lemma ConfirmedMatchOutlivesPasses(t: Table, k: Occurrence, txn: string, passes: seq<Env>)
    requires Unique(t) && k in t && t[k].txn == Some(txn)
    requires forall i :: 0 <= i < |passes| ==> Held(passes[i].ledger, txn)
    ensures var confirmed := After(t, ConfirmStep(k));
            && Unique(confirmed)
            && var run := seq(|passes|, i requires 0 <= i < |passes| => ResolveStep(passes[i]));
               k in AfterRun(confirmed, run) && AfterRun(confirmed, run)[k] == Row(Some(txn), Manual)
  {
    hide Held;
    StepKeepsUnique(t, ConfirmStep(k));
    assert !HeldElsewhere(t, Some(txn), k);
    var confirmed := After(t, ConfirmStep(k));
    var run := seq(|passes|, i requires 0 <= i < |passes| => ResolveStep(passes[i]));
    ManualRowStands(confirmed, run, k);
  }
}
