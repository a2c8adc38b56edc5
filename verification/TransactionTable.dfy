/**
 The transactions table (src/internal/core/db/sqlc/transactions.sql.go). The bank's columns and the
 user's facets of a row are written by different statements, and no statement writes both.
 */
module TransactionTable {
  import opened Common
  import opened Calendar
  import opened Categorization

  /** The columns every sync rewrites. */
  datatype Bank = Bank(account: string, date: Date, amount: real, merchant: string, counterparty: string,
                       primary: string, pending: bool)

  /** The columns a sync leaves alone: the verdict, the transfer pairing and their override flags. */
  datatype Facet = Facet(verdict: Verdict, overridden: bool, destination: Option<string>, subtype: string,
                         destinationOverridden: bool)

  datatype Row = Row(bank: Bank, facet: Facet)

  type Table = map<string, Row>

  /** The column defaults of a row no pass has looked at yet. */
  const FRESH := Facet(Verdict(Unclassified, None), false, None, "", false)

  /** UpsertTransaction: the bank's columns of one row; a new row takes the defaults. */
  function Upsert(t: Table, id: string, bank: Bank): Table {
    t[id := Row(bank, if id in t then t[id].facet else FRESH)]
  }

  /** DeleteTransaction. */
  function Delete(t: Table, id: string): Table {
    t - {id}
  }

  /** SetTransactionCategorization: the verdict of one row, and nothing else of it. */
  function SetVerdict(t: Table, id: string, verdict: Verdict): Table {
    if id in t then t[id := WithVerdict(t[id], verdict)] else t
  }

  function WithVerdict(row: Row, verdict: Verdict): Row {
    row.(facet := row.facet.(verdict := verdict))
  }

  /** OverrideTransactionCategorization: a manual verdict; leaving Transfer clears the transfer facet. */
  function Override(t: Table, id: string, verdict: Verdict): Table {
    if id !in t then t
    else if verdict.classification.Transfer? then
      t[id := t[id].(facet := t[id].facet.(verdict := verdict, overridden := true))]
    else
      t[id := t[id].(facet := Facet(verdict, true, None, "", false))]
  }

  /** No row but this one was written. */
  ghost predicate OnlyRowWritten(before: Table, after: Table, id: string) {
    forall other :: other != id ==>
      && (other in after <==> other in before)
      && (other in before ==> after[other] == before[other])
  }

  /** The rows and the sync cursors, in one database. */
  class Ledger {
    var rows: Table
    var cursors: map<string, string>

    constructor ()
      ensures rows == map[] && cursors == map[]
    {
      rows, cursors := map[], map[];
    }

    /** A new row waits at the column defaults for the next sweep; an old one keeps its facet. */
    method UpsertTransaction(id: string, bank: Bank)
      modifies this`rows
      ensures rows == Upsert(old(rows), id, bank)
      ensures OnlyRowWritten(old(rows), rows, id) && id in rows && rows[id].bank == bank
      ensures id in old(rows) ==> rows[id].facet == old(rows)[id].facet
      ensures id !in old(rows) ==>
                && !rows[id].facet.overridden && !rows[id].facet.destinationOverridden
                && rows[id].facet.verdict == Verdict(Unclassified, None)
                && rows[id].facet.destination == None && rows[id].facet.subtype == ""
    {
      rows := rows[id := Row(bank, if id in rows then rows[id].facet else FRESH)];
    }

    method DeleteTransaction(id: string)
      modifies this`rows
      ensures rows == Delete(old(rows), id)
      ensures OnlyRowWritten(old(rows), rows, id) && id !in rows
    {
      rows := rows - {id};
    }

    method SetCategorization(id: string, verdict: Verdict)
      modifies this`rows
      ensures rows == SetVerdict(old(rows), id, verdict)
      ensures OnlyRowWritten(old(rows), rows, id) && (id in rows <==> id in old(rows))
      ensures id in rows ==>
                && rows[id].bank == old(rows)[id].bank && rows[id].facet.verdict == verdict
                && rows[id].facet.overridden == old(rows)[id].facet.overridden
                && rows[id].facet.destination == old(rows)[id].facet.destination
                && rows[id].facet.subtype == old(rows)[id].facet.subtype
                && rows[id].facet.destinationOverridden == old(rows)[id].facet.destinationOverridden
    {
      if id in rows {
        rows := rows[id := WithVerdict(rows[id], verdict)];
      }
    }

    /** A row taken off Transfer loses its transfer facet, whose subtype would count it as savings again. */
    method OverrideCategorization(id: string, verdict: Verdict)
      modifies this`rows
      ensures rows == Override(old(rows), id, verdict)
      ensures OnlyRowWritten(old(rows), rows, id) && (id in rows <==> id in old(rows))
      ensures id in rows ==>
                && rows[id].bank == old(rows)[id].bank && rows[id].facet.verdict == verdict && rows[id].facet.overridden
      ensures id in rows && verdict.classification.Transfer? ==>
                && rows[id].facet.destination == old(rows)[id].facet.destination
                && rows[id].facet.subtype == old(rows)[id].facet.subtype
                && rows[id].facet.destinationOverridden == old(rows)[id].facet.destinationOverridden
      ensures id in rows && !verdict.classification.Transfer? ==>
                && rows[id].facet.destination == None && rows[id].facet.subtype == ""
                && !rows[id].facet.destinationOverridden
    {
      if id in rows {
        var facet := rows[id].facet.(verdict := verdict, overridden := true);
        if !verdict.classification.Transfer? {
          facet := facet.(destination := None, subtype := "", destinationOverridden := false);
        }
        rows := rows[id := rows[id].(facet := facet)];
      }
    }
  }
}
