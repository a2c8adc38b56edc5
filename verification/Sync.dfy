/**
 The sync (src/internal/plaid/service.go and src/internal/transactions/service.go): the pages of one
 pull are gathered into one batch, and the batch is applied as all additions, then all
 modifications, then all removals.
 */
module Sync {
  import opened Common
  import opened Calendar
  import opened TransactionTable

  datatype Transaction = Transaction(id: string, providerAccount: string, date: Date, amount: real, merchant: string,
                                     counterparty: string, primary: string, pending: bool)

  datatype Page = Page(added: seq<Transaction>, modified: seq<Transaction>, removed: seq<string>, next: string,
                       more: bool)

  /** What the bank answers to a request for a page. */
  datatype Answer = Answered(page: Page) | Reauth | Failure

  /** The bank: its answer to the n-th request of a pull, given the cursor. */
  type Source = (nat, string) -> Answer

  datatype Changes = Changes(added: seq<Transaction>, modified: seq<Transaction>, removed: seq<string>, cursor: string)

  datatype Pull = Pulled(changes: Changes) | PullReauth | PullFailed

  const MAX_SYNC_PAGES: nat := 1000

  // ------------------------------------------------------------- gathering

  /** The pages a pull walks through, and how it ends. */
  datatype Walk = Complete(pages: seq<Page>) | Refused(answer: Answer)

  /** At most left more pages, from the n-th request on. */
  function Walked(source: Source, cursor: string, n: nat, left: nat): Walk
    decreases left
  {
    if left == 0 then Complete([])
    else
      var answer := source(n, cursor);
      if !answer.Answered? then Refused(answer)
      else if !answer.page.more then Complete([answer.page])
      else
        var rest := Walked(source, answer.page.next, n + 1, left - 1);
        if rest.Complete? then Complete([answer.page] + rest.pages) else rest
  }

  /** The cursor a pull holds once it has the first n pages. */
  function CursorAfter(cursor: string, pages: seq<Page>, n: nat): string
    requires n <= |pages|
  {
    if n == 0 then cursor else pages[n - 1].next
  }

  /** The bank answers the request behind i pages with the next, which has more behind it unless it is the last. */
  ghost predicate IsNext(source: Source, cursor: string, n: nat, pages: seq<Page>, i: nat)
    requires i < |pages|
  {
    source(n + i, CursorAfter(cursor, pages, i)) == Answered(pages[i]) && (i < |pages| - 1 ==> pages[i].more)
  }

  /** Pages the bank answers one after another, each asked for with the cursor of the one before. */
  ghost predicate IsChain(source: Source, cursor: string, n: nat, pages: seq<Page>) {
    forall i :: 0 <= i < |pages| ==> IsNext(source, cursor, n, pages, i)
  }

  /** The whole of a pull: such pages up to the first that has no more behind it, or up to the page limit. */
  ghost predicate IsPull(source: Source, cursor: string, n: nat, left: nat, pages: seq<Page>) {
    && IsChain(source, cursor, n, pages) && |pages| <= left
    && (|pages| == left || (pages != [] && !pages[|pages| - 1].more))
  }

  lemma NextOneOn(source: Source, cursor: string, n: nat, page: Page, rest: seq<Page>, i: nat)
    requires i < |rest|
    ensures IsNext(source, cursor, n, [page] + rest, i + 1) <==> IsNext(source, page.next, n + 1, rest, i)
  {
    var pages := [page] + rest;
    assert pages[i + 1] == rest[i] && CursorAfter(cursor, pages, i + 1) == CursorAfter(page.next, rest, i);
    assert n + (i + 1) == n + 1 + i;
  }

  lemma ChainFrom(source: Source, cursor: string, n: nat, page: Page, rest: seq<Page>)
    requires source(n, cursor) == Answered(page) && (rest == [] || page.more)
    ensures IsChain(source, cursor, n, [page] + rest) <==> IsChain(source, page.next, n + 1, rest)
  {
    var pages := [page] + rest;
    assert IsNext(source, cursor, n, pages, 0);
    hide IsNext;
    var m := n + 1;
    forall i | 0 <= i < |rest| && IsChain(source, cursor, n, pages) ensures IsNext(source, page.next, m, rest, i) {
      NextOneOn(source, cursor, n, page, rest, i);
      assert IsNext(source, cursor, n, pages, i + 1);
    }
    forall j | 0 < j < |pages| && IsChain(source, page.next, m, rest) ensures IsNext(source, cursor, n, pages, j) {
      NextOneOn(source, cursor, n, page, rest, j - 1);
      assert IsNext(source, page.next, m, rest, j - 1);
    }
  }

  /** A pull walks through the whole of the chain, unless the bank refuses a page of it. */
  lemma {:induction false} WalkedIsThePull(source: Source, cursor: string, n: nat, left: nat, pages: seq<Page>)
    ensures Walked(source, cursor, n, left) == Complete(pages) <==> IsPull(source, cursor, n, left, pages)
    decreases left
  {
    hide IsChain;
    if left > 0 && source(n, cursor).Answered? && pages != [] && pages[0] == source(n, cursor).page {
      var page := source(n, cursor).page;
      assert pages == [page] + pages[1..];
      if page.more {
        WalkedIsThePull(source, page.next, n + 1, left - 1, pages[1..]);
        ChainFrom(source, cursor, n, page, pages[1..]);
      } else {
        ChainFrom(source, cursor, n, page, []);
        ChainBegins(source, page.next, n + 1, []);
        ChainBegins(source, cursor, n, pages);
        assert [page] + [] == [page];
      }
    } else {
      ChainBegins(source, cursor, n, pages);
    }
  }

  /** The bank answers a request with no page, behind pages that all have more behind them. */
  ghost predicate IsRefused(source: Source, cursor: string, n: nat, left: nat, pages: seq<Page>, answer: Answer) {
    && IsChain(source, cursor, n, pages) && |pages| < left && (pages != [] ==> pages[|pages| - 1].more)
    && source(n + |pages|, CursorAfter(cursor, pages, |pages|)) == answer && !answer.Answered?
  }

  lemma {:induction false} RefusalIsWalkedInto(source: Source, cursor: string, n: nat, left: nat, pages: seq<Page>,
                                               answer: Answer)
    requires IsRefused(source, cursor, n, left, pages, answer)
    ensures Walked(source, cursor, n, left) == Refused(answer)
    decreases left
  {
    hide IsChain;
    if pages != [] {
      var rest := pages[1..];
      ChainBegins(source, cursor, n, pages);
      assert pages == [pages[0]] + rest;
      ChainFrom(source, cursor, n, pages[0], rest);
      RefusalIsWalkedInto(source, pages[0].next, n + 1, left - 1, rest, answer);
    }
  }

  lemma {:induction false} RefusalEndsAChain(source: Source, cursor: string, n: nat, left: nat)
    returns (pages: seq<Page>)
    requires Walked(source, cursor, n, left).Refused?
    ensures IsRefused(source, cursor, n, left, pages, Walked(source, cursor, n, left).answer)
    decreases left
  {
    hide IsChain;
    var answer := source(n, cursor);
    pages := [];
    if answer.Answered? {
      var rest := RefusalEndsAChain(source, answer.page.next, n + 1, left - 1);
      ChainFrom(source, cursor, n, answer.page, rest);
      pages := [answer.page] + rest;
    } else {
      ChainBegins(source, cursor, n, pages);
    }
  }

  lemma ChainBegins(source: Source, cursor: string, n: nat, pages: seq<Page>)
    ensures pages == [] ==> IsChain(source, cursor, n, pages)
    ensures IsChain(source, cursor, n, pages) && pages != [] ==>
              source(n, cursor) == Answered(pages[0]) && (|pages| > 1 ==> pages[0].more)
  {
    if IsChain(source, cursor, n, pages) && pages != [] {
      assert IsNext(source, cursor, n, pages, 0);
    }
  }

  function AllAdded(pages: seq<Page>): seq<Transaction> {
    if pages == [] then [] else AllAdded(pages[..|pages| - 1]) + pages[|pages| - 1].added
  }

  function AllModified(pages: seq<Page>): seq<Transaction> {
    if pages == [] then [] else AllModified(pages[..|pages| - 1]) + pages[|pages| - 1].modified
  }

  function AllRemoved(pages: seq<Page>): seq<string> {
    if pages == [] then [] else AllRemoved(pages[..|pages| - 1]) + pages[|pages| - 1].removed
  }

  function Batch(cursor: string, pages: seq<Page>): Changes {
    Changes(AllAdded(pages), AllModified(pages), AllRemoved(pages),
            if pages == [] then cursor else pages[|pages| - 1].next)
  }

  lemma OneMorePage(cursor: string, pages: seq<Page>, page: Page)
    ensures var c := Batch(cursor, pages);
            Batch(cursor, pages + [page]) ==
            Changes(c.added + page.added, c.modified + page.modified, c.removed + page.removed, page.next)
  {
    assert (pages + [page])[..|pages|] == pages;
  }

  function Preceded(pages: seq<Page>, walk: Walk): Walk {
    if walk.Complete? then Complete(pages + walk.pages) else walk
  }

  lemma OneMoreRequest(source: Source, cursor: string, n: nat, left: nat, pages: seq<Page>)
    requires left > 0 && source(n, cursor).Answered?
    ensures var page := source(n, cursor).page;
            Preceded(pages, Walked(source, cursor, n, left)) ==
            if page.more then Preceded(pages + [page], Walked(source, page.next, n + 1, left - 1))
            else Complete(pages + [page])
  {
    var page := source(n, cursor).page;
    var rest := Walked(source, page.next, n + 1, left - 1);
    if page.more && rest.Complete? {
      assert pages + ([page] + rest.pages) == (pages + [page]) + rest.pages;
    }
  }

  /** SyncTransactions of the provider: all the pages of the pull, or none of them. */
  method PullChanges(source: Source, cursor: string) returns (pull: Pull)
    ensures var walk := Walked(source, cursor, 0, MAX_SYNC_PAGES);
            pull ==
            if walk.Complete? then Pulled(Batch(cursor, walk.pages))
            else if walk.answer.Reauth? then PullReauth
            else PullFailed
  {
    hide Batch, Walked, Preceded;
    var changes := Changes([], [], [], cursor);
    ghost var pages: seq<Page> := [];
    var limit := MAX_SYNC_PAGES;
    ghost var walk := Walked(source, cursor, 0, limit);
    PullBegins(cursor, walk);
    for n := 0 to limit
      invariant changes == Batch(cursor, pages)
      invariant walk == Preceded(pages, Walked(source, changes.cursor, n, limit - n))
    {
      var answer := source(n, changes.cursor);
      if !answer.Answered? {
        RefusalEndsIt(source, changes.cursor, n, limit - n, pages);
        return if answer.Reauth? then PullReauth else PullFailed;
      }
      var page := answer.page;
      OneMoreRequest(source, changes.cursor, n, limit - n, pages);
      OneMorePage(cursor, pages, page);
      pages := pages + [page];
      changes := Changes(changes.added + page.added, changes.modified + page.modified, changes.removed + page.removed,
                         page.next);
      if !page.more {
        return Pulled(changes);
      }
    }
    LimitEndsIt(source, changes.cursor, limit, pages);
    pull := Pulled(changes);
  }

  lemma PullBegins(cursor: string, walk: Walk)
    ensures Preceded([], walk) == walk && Batch(cursor, []) == Changes([], [], [], cursor)
  {
  }

  lemma RefusalEndsIt(source: Source, cursor: string, n: nat, left: nat, pages: seq<Page>)
    requires left > 0 && !source(n, cursor).Answered?
    ensures Preceded(pages, Walked(source, cursor, n, left)) == Refused(source(n, cursor))
  {
  }

  lemma LimitEndsIt(source: Source, cursor: string, n: nat, pages: seq<Page>)
    ensures Preceded(pages, Walked(source, cursor, n, 0)) == Complete(pages)
  {
    assert pages + [] == pages;
  }

  // -------------------------------------------------------------- applying

  /** One write of a sync: the bank's columns of a row, or its removal. */
  datatype Op = Put(id: string, bank: Bank) | Drop(id: string)

  function Written(t: Table, op: Op): Table {
    match op
    case Put(id, bank) => Upsert(t, id, bank)
    case Drop(id) => Delete(t, id)
  }

  function WrittenAll(t: Table, ops: seq<Op>): Table {
    if ops == [] then t else Written(WrittenAll(t, ops[..|ops| - 1]), ops[|ops| - 1])
  }

  type Accounts = map<string, string>

  function BankOf(txn: Transaction, known: Accounts): Bank
    requires txn.providerAccount in known
  {
    Bank(known[txn.providerAccount], txn.date, txn.amount, txn.merchant, txn.counterparty, txn.primary, txn.pending)
  }

  /** The upserts of a list; a transaction of an unknown account is skipped. */
  function Puts(txns: seq<Transaction>, known: Accounts): seq<Op> {
    if txns == [] then []
    else
      var last := txns[|txns| - 1];
      Puts(txns[..|txns| - 1], known)
      + if last.providerAccount in known then [Put(last.id, BankOf(last, known))] else []
  }

  function Drops(ids: seq<string>): seq<Op> {
    seq(|ids|, i requires 0 <= i < |ids| => Drop(ids[i]))
  }

  /** applyChanges: all additions, then all modifications, then all removals. */
  function Writes(added: seq<Transaction>, modified: seq<Transaction>, removed: seq<string>, known: Accounts): seq<Op> {
    Puts(added, known) + Puts(modified, known) + Drops(removed)
  }

  function BatchOps(c: Changes, known: Accounts): seq<Op> {
    Writes(c.added, c.modified, c.removed, known)
  }

  function PageOps(p: Page, known: Accounts): seq<Op> {
    Writes(p.added, p.modified, p.removed, known)
  }

  /** The writes of applying every page as it comes. */
  function PagedOps(pages: seq<Page>, known: Accounts): seq<Op> {
    if pages == [] then [] else PagedOps(pages[..|pages| - 1], known) + PageOps(pages[|pages| - 1], known)
  }

  lemma {:induction false} WrittenInTurn(t: Table, a: seq<Op>, b: seq<Op>)
    ensures WrittenAll(t, a + b) == WrittenAll(WrittenAll(t, a), b)
  {
    hide Written;
    if b == [] {
      assert a + b == a;
    } else {
      assert (a + b)[..|a + b| - 1] == a + b[..|b| - 1];
      WrittenInTurn(t, a, b[..|b| - 1]);
    }
  }

  // The last write to an id decides what becomes of it.

  function Fate(ops: seq<Op>, id: string): Option<Op> {
    if ops == [] then None
    else if ops[|ops| - 1].id == id then Some(ops[|ops| - 1])
    else Fate(ops[..|ops| - 1], id)
  }

  function OrElse(later: Option<Op>, earlier: Option<Op>): Option<Op> {
    if later.Some? then later else earlier
  }

  lemma {:induction false} FateOfBoth(a: seq<Op>, b: seq<Op>, id: string)
    ensures Fate(a + b, id) == OrElse(Fate(b, id), Fate(a, id))
  {
    if b == [] {
      assert a + b == a;
    } else {
      assert (a + b)[..|a + b| - 1] == a + b[..|b| - 1];
      FateOfBoth(a, b[..|b| - 1], id);
    }
  }

  lemma {:induction false} FateIsAWrite(ops: seq<Op>, id: string)
    ensures Fate(ops, id).Some? ==> Fate(ops, id).value in ops && Fate(ops, id).value.id == id
    ensures Fate(ops, id).None? ==> forall op :: op in ops ==> op.id != id
  {
    if ops != [] {
      FateIsAWrite(ops[..|ops| - 1], id);
      assert ops == ops[..|ops| - 1] + [ops[|ops| - 1]];
    }
  }

  /** What the writes leave at an id: its last columns, and its facets unless it was ever dropped. */
  lemma {:induction false} WhatBecomesOf(t: Table, ops: seq<Op>, id: string)
    ensures var after := WrittenAll(t, ops);
            match Fate(ops, id)
            case None => (id in after <==> id in t) && (id in t ==> after[id] == t[id])
            case Some(Drop(_)) => id !in after
            case Some(Put(_, bank)) =>
              id in after && after[id] == Row(bank, if id in t && Drop(id) !in ops then t[id].facet else FRESH)
  {
    if ops != [] {
      hide Written;
      var front, last := ops[..|ops| - 1], ops[|ops| - 1];
      assert ops == front + [last];
      assert Drop(id) in ops <==> Drop(id) in front || last == Drop(id);
      WhatBecomesOf(t, front, id);
      FateIsAWrite(front, id);
      OneWrite(WrittenAll(t, front), last, id);
    }
  }

  lemma OneWrite(t: Table, op: Op, id: string)
    ensures var after := Written(t, op);
            if op.id != id then (id in after <==> id in t) && (id in t ==> after[id] == t[id])
            else if op.Drop? then id !in after
            else id in after && after[id] == Row(op.bank, if id in t then t[id].facet else FRESH)
  {
  }

  // ------------------------------------------- the batch against its pages

  lemma {:induction false} PutsInTurn(a: seq<Transaction>, b: seq<Transaction>, known: Accounts)
    ensures Puts(a + b, known) == Puts(a, known) + Puts(b, known)
  {
    hide BankOf;
    if b == [] {
      assert a + b == a;
    } else {
      assert (a + b)[..|a + b| - 1] == a + b[..|b| - 1];
      PutsInTurn(a, b[..|b| - 1], known);
    }
  }

  lemma DropsInTurn(a: seq<string>, b: seq<string>)
    ensures Drops(a + b) == Drops(a) + Drops(b)
  {
  }

  /** The batch makes the same writes as the pages, in another order. */
  lemma {:induction false} BatchRearrangesPages(cursor: string, pages: seq<Page>, known: Accounts)
    ensures multiset(BatchOps(Batch(cursor, pages), known)) == multiset(PagedOps(pages, known))
  {
    hide Puts, Drops;
    var c := Batch(cursor, pages);
    if pages == [] {
      assert Puts([], known) == [] && Drops([]) == [] by {
        NoWrites(known);
      }
    } else {
      var front, p := pages[..|pages| - 1], pages[|pages| - 1];
      var f := Batch(cursor, front);
      BatchRearrangesPages(cursor, front, known);
      PutsInTurn(f.added, p.added, known);
      PutsInTurn(f.modified, p.modified, known);
      DropsInTurn(f.removed, p.removed);
    }
  }

  lemma NoWrites(known: Accounts)
    ensures Puts([], known) == [] && Drops([]) == []
  {
  }

  lemma {:induction false} PutsOnlyPut(txns: seq<Transaction>, known: Accounts)
    ensures forall op :: op in Puts(txns, known) ==> op.Put?
  {
    hide BankOf;
    if txns != [] {
      PutsOnlyPut(txns[..|txns| - 1], known);
    }
  }

  lemma {:induction false} FateOfDrops(ids: seq<string>, id: string)
    ensures Fate(Drops(ids), id) == if id in ids then Some(Drop(id)) else None
  {
    FateIsAWrite(Drops(ids), id);
    if i :| 0 <= i < |ids| && ids[i] == id {
      assert Drops(ids)[i].id == id;
    }
  }

  /** Within one batch, a removal has the last word, then a modification, then an addition. */
  lemma FateOfWrites(added: seq<Transaction>, modified: seq<Transaction>, removed: seq<string>, known: Accounts,
                     id: string)
    ensures Fate(Writes(added, modified, removed, known), id) ==
            if id in removed then Some(Drop(id))
            else OrElse(Fate(Puts(modified, known), id), Fate(Puts(added, known), id))
    ensures Drop(id) in Writes(added, modified, removed, known) <==> id in removed
  {
    hide Puts, Fate;
    FateOfBoth(Puts(added, known) + Puts(modified, known), Drops(removed), id);
    FateOfBoth(Puts(added, known), Puts(modified, known), id);
    FateOfDrops(removed, id);
    PutsOnlyPut(added, known);
    PutsOnlyPut(modified, known);
    DropsOf(removed, id);
  }

  lemma DropsOf(ids: seq<string>, id: string)
    ensures Drop(id) in Drops(ids) <==> id in ids
  {
    if i :| 0 <= i < |ids| && ids[i] == id {
      assert Drops(ids)[i] == Drop(id);
    }
  }

  /** The pages' last word on an id is the one the batch ends on. */
  ghost predicate OrderIsKept(pages: seq<Page>, known: Accounts, id: string) {
    Fate(PagedOps(pages, known), id) ==
    if id in AllRemoved(pages) then Some(Drop(id))
    else OrElse(Fate(Puts(AllModified(pages), known), id), Fate(Puts(AllAdded(pages), known), id))
  }

  /** At one id, the two tables agree exactly when the last word is the same. */
  lemma SameLastWordSameRow(t: Table, a: seq<Op>, b: seq<Op>, id: string)
    requires multiset(a) == multiset(b)
    requires Drop(id) in b ==> Fate(b, id) == Some(Drop(id))
    ensures var x, y := WrittenAll(t, a), WrittenAll(t, b);
            ((id in x <==> id in y) && (id in x && id in y ==> x[id] == y[id])) <==> Fate(a, id) == Fate(b, id)
  {
    hide Fate, WrittenAll;
    WhatBecomesOf(t, a, id);
    WhatBecomesOf(t, b, id);
    FateIsAWrite(a, id);
    FateIsAWrite(b, id);
    assert forall op :: op in a <==> op in multiset(b);
  }

  /**
   Applying the gathered batch gives the table that applying the pages in order gives exactly when,
   for every id, the pages' last word is the batch's.
   */
  lemma BatchEqualsPages(t: Table, cursor: string, pages: seq<Page>, known: Accounts)
    ensures WrittenAll(t, BatchOps(Batch(cursor, pages), known)) == WrittenAll(t, PagedOps(pages, known))
            <==> forall id :: OrderIsKept(pages, known, id)
  {
    hide Fate, WrittenAll, Puts, Drops, AllAdded, AllModified, AllRemoved, PagedOps, Writes;
    var c := Batch(cursor, pages);
    var batch, paged := BatchOps(c, known), PagedOps(pages, known);
    var x, y := WrittenAll(t, paged), WrittenAll(t, batch);
    BatchRearrangesPages(cursor, pages, known);
    forall id
      ensures OrderIsKept(pages, known, id) <==> ((id in x <==> id in y) && (id in x && id in y ==> x[id] == y[id]))
    {
      FateOfWrites(c.added, c.modified, c.removed, known, id);
      SameLastWordSameRow(t, paged, batch, id);
    }
    if x == y {
    } else {
      var id :| (id in x) != (id in y) || (id in x && id in y && x[id] != y[id]);
      assert !OrderIsKept(pages, known, id);
    }
  }

  predicate Upserts(txns: seq<Transaction>, known: Accounts, id: string) {
    Fate(Puts(txns, known), id).Some?
  }

  /** No id comes back after a page removed it, nor is added after a page modified it. */
  ghost predicate IsOrderly(pages: seq<Page>, known: Accounts) {
    forall i, j, id :: 0 <= i < j < |pages| ==>
      && (id in pages[i].removed ==> !Upserts(pages[j].added, known, id) && !Upserts(pages[j].modified, known, id))
      && (Upserts(pages[i].modified, known, id) ==> !Upserts(pages[j].added, known, id))
  }

  /** What a page does to an id, in terms of the pages before it. */
  lemma {:induction false} GatheredComesFromSomePage(pages: seq<Page>, known: Accounts, id: string)
    ensures id in AllRemoved(pages) <==> exists i :: 0 <= i < |pages| && id in pages[i].removed
    ensures Upserts(AllModified(pages), known, id) <==>
            exists i :: 0 <= i < |pages| && Upserts(pages[i].modified, known, id)
  {
    hide Fate, Puts;
    if pages != [] {
      var front, p := pages[..|pages| - 1], pages[|pages| - 1];
      GatheredComesFromSomePage(front, known, id);
      PutsInTurn(AllModified(front), p.modified, known);
      FateOfBoth(Puts(AllModified(front), known), Puts(p.modified, known), id);
      assert forall i :: 0 <= i < |front| ==> pages[i] == front[i];
    } else {
      NoWrites(known);
      FateIsAWrite(Puts([], known), id);
    }
  }

  lemma {:induction false} OrderlyKeepsOrder(pages: seq<Page>, known: Accounts, id: string)
    requires IsOrderly(pages, known)
    ensures OrderIsKept(pages, known, id)
  {
    hide Fate, Puts, Drops, Writes;
    if pages == [] {
      NoWrites(known);
      FateIsAWrite([], id);
    } else {
      hide PagedOps, AllAdded, AllModified, AllRemoved, OrderIsKept;
      var n := |pages| - 1;
      var front, p := pages[..n], pages[n];
      assert forall i :: 0 <= i < n ==> pages[i] == front[i];
      assert front + [p] == pages;
      OrderlyKeepsOrder(front, known, id);
      GatheredComesFromSomePage(front, known, id);
      ComesBackNoMore(pages, known, id);
      OrderKeptOnePageLater(front, p, known, id);
    }
  }

  /** What an orderly last page may not do to an id that the pages before it removed, or modified. */
  lemma ComesBackNoMore(pages: seq<Page>, known: Accounts, id: string)
    requires pages != [] && IsOrderly(pages, known)
    ensures var (n, p) := (|pages| - 1, pages[|pages| - 1]);
            && ((exists i :: 0 <= i < n && id in pages[i].removed) ==>
                  !Upserts(p.added, known, id) && !Upserts(p.modified, known, id))
            && ((exists i :: 0 <= i < n && Upserts(pages[i].modified, known, id)) ==> !Upserts(p.added, known, id))
  {
    hide Upserts;
  }

  lemma OrderKeptOnePageLater(front: seq<Page>, p: Page, known: Accounts, id: string)
    requires OrderIsKept(front, known, id)
    requires id in AllRemoved(front) ==> !Upserts(p.added, known, id) && !Upserts(p.modified, known, id)
    requires Upserts(AllModified(front), known, id) ==> !Upserts(p.added, known, id)
    ensures OrderIsKept(front + [p], known, id)
  {
    hide Fate, Puts, PagedOps, AllAdded, AllModified, AllRemoved;
    OneMorePageOf(front, p, known, id);
  }

  /** The last words, one page later. */
  lemma OneMorePageOf(front: seq<Page>, p: Page, known: Accounts, id: string)
    ensures var pages := front + [p];
            && Fate(PagedOps(pages, known), id) ==
               (if id in p.removed then Some(Drop(id))
                else OrElse(Fate(Puts(p.modified, known), id),
                            OrElse(Fate(Puts(p.added, known), id), Fate(PagedOps(front, known), id))))
            && (id in AllRemoved(pages) <==> id in AllRemoved(front) || id in p.removed)
            && Fate(Puts(AllModified(pages), known), id) ==
               OrElse(Fate(Puts(p.modified, known), id), Fate(Puts(AllModified(front), known), id))
            && Fate(Puts(AllAdded(pages), known), id) ==
               OrElse(Fate(Puts(p.added, known), id), Fate(Puts(AllAdded(front), known), id))
  {
    hide Fate, Puts, Drops, Writes;
    assert (front + [p])[..|front|] == front;
    FateOfBoth(PagedOps(front, known), PageOps(p, known), id);
    FateOfWrites(p.added, p.modified, p.removed, known, id);
    PutsInTurn(AllModified(front), p.modified, known);
    FateOfBoth(Puts(AllModified(front), known), Puts(p.modified, known), id);
    PutsInTurn(AllAdded(front), p.added, known);
    FateOfBoth(Puts(AllAdded(front), known), Puts(p.added, known), id);
  }

  /** For orderly pages the batch is as good as the pages, whatever the table. */
  lemma OrderlyPagesNeedNoOrder(t: Table, cursor: string, pages: seq<Page>, known: Accounts)
    requires IsOrderly(pages, known)
    ensures WrittenAll(t, BatchOps(Batch(cursor, pages), known)) == WrittenAll(t, PagedOps(pages, known))
  {
    hide IsOrderly, OrderIsKept, WrittenAll;
    forall id ensures OrderIsKept(pages, known, id) {
      OrderlyKeepsOrder(pages, known, id);
    }
    BatchEqualsPages(t, cursor, pages, known);
  }

  /** Whatever any page removes, the batch leaves removed. */
  lemma BatchDropsWhatAnyPageRemoved(t: Table, cursor: string, pages: seq<Page>, known: Accounts, id: string)
    requires id in AllRemoved(pages)
    ensures id !in WrittenAll(t, BatchOps(Batch(cursor, pages), known))
  {
    hide AllAdded, AllModified, AllRemoved, WrittenAll, Fate, Writes, Puts;
    FateOfWrites(AllAdded(pages), AllModified(pages), AllRemoved(pages), known, id);
    WhatBecomesOf(t, BatchOps(Batch(cursor, pages), known), id);
  }

  /** The pages keep what the last of them upserts and does not remove. */
  lemma PagesKeepWhatTheLastUpserts(t: Table, front: seq<Page>, p: Page, known: Accounts, id: string)
    requires id !in p.removed && (Upserts(p.added, known, id) || Upserts(p.modified, known, id))
    ensures id in WrittenAll(t, PagedOps(front + [p], known))
  {
    hide WrittenAll, Fate, Puts, PagedOps, AllAdded, AllModified, AllRemoved;
    OneMorePageOf(front, p, known, id);
    FateIsAPut(p.added, known, id);
    FateIsAPut(p.modified, known, id);
    WhatBecomesOf(t, PagedOps(front + [p], known), id);
  }

  lemma FateIsAPut(txns: seq<Transaction>, known: Accounts, id: string)
    ensures Fate(Puts(txns, known), id).Some? ==> Fate(Puts(txns, known), id).value.Put?
  {
    hide Fate, Puts;
    PutsOnlyPut(txns, known);
    FateIsAWrite(Puts(txns, known), id);
  }

  /**
   Out of order the batch loses rows: whatever one page removes and the last upserts again is gone.
   One page that removes a transaction, and a next one that adds it, are enough.
   */
  lemma ReaddedRowIsLost(t: Table, cursor: string, known: Accounts, txn: Transaction)
    requires txn.providerAccount in known
    ensures var pages := [Page([], [], [txn.id], "1", true)] + [Page([txn], [], [], "2", false)];
            && txn.id !in WrittenAll(t, BatchOps(Batch(cursor, pages), known))
            && txn.id in WrittenAll(t, PagedOps(pages, known))
  {
    hide BankOf, WrittenAll, Fate, Puts, PagedOps, AllRemoved, Batch;
    var first, second := Page([], [], [txn.id], "1", true), Page([txn], [], [], "2", false);
    RemovedOnTheFirst(first, second, txn.id);
    BatchDropsWhatAnyPageRemoved(t, cursor, [first] + [second], known, txn.id);
    OnePut(txn, known);
    PagesKeepWhatTheLastUpserts(t, [first], second, known, txn.id);
  }

  lemma RemovedOnTheFirst(first: Page, second: Page, id: string)
    requires id in first.removed
    ensures id in AllRemoved([first] + [second])
  {
    assert ([first] + [second])[..1] == [first];
  }

  lemma OnePut(txn: Transaction, known: Accounts)
    requires txn.providerAccount in known
    ensures Upserts([txn], known, txn.id)
  {
    hide BankOf;
    assert [txn][..0] == [];
    assert Puts([txn], known) == [Put(txn.id, BankOf(txn, known))];
  }

  /** No write of a sync touches a facet: a row that is never dropped keeps all of its own. */
  lemma SyncKeepsFacets(t: Table, ops: seq<Op>, id: string)
    requires id in t && Drop(id) !in ops
    ensures var after := WrittenAll(t, ops); id in after && after[id].facet == t[id].facet
  {
    hide WrittenAll, Fate;
    WhatBecomesOf(t, ops, id);
    FateIsAWrite(ops, id);
  }

  // ------------------------------------------------------- the connections

  datatype Target = Target(connection: string, known: Accounts, source: Source)

  datatype State = State(rows: Table, cursors: map<string, string>)

  function CursorOf(cursors: map<string, string>, connection: string): string {
    if connection in cursors then cursors[connection] else ""
  }

  function WalkOf(s: State, target: Target): Walk {
    Walked(target.source, CursorOf(s.cursors, target.connection), 0, MAX_SYNC_PAGES)
  }

  /** One connection: all the rows and the cursor together, or neither. */
  function AfterConnection(s: State, target: Target): State {
    var walk := WalkOf(s, target);
    if walk.Refused? then s
    else
      var c := Batch(CursorOf(s.cursors, target.connection), walk.pages);
      State(WrittenAll(s.rows, BatchOps(c, target.known)), s.cursors[target.connection := c.cursor])
  }

  function AfterTargets(s: State, targets: seq<Target>): State {
    if targets == [] then s else AfterConnection(AfterTargets(s, targets[..|targets| - 1]), targets[|targets| - 1])
  }

  // What the writes leave, column by column.

  ghost predicate IsLastOf(txns: seq<Transaction>, known: Accounts, id: string, i: int) {
    && 0 <= i < |txns| && txns[i].id == id && txns[i].providerAccount in known
    && forall j :: i < j < |txns| && txns[j].id == id ==> txns[j].providerAccount !in known
  }

  ghost predicate Brings(txns: seq<Transaction>, known: Accounts, id: string) {
    exists i :: 0 <= i < |txns| && txns[i].id == id && txns[i].providerAccount in known
  }

  /** The last the changes bring of an id for an account the app knows, a modification before an addition. */
  ghost predicate IsLastBrought(c: Changes, known: Accounts, txn: Transaction) {
    || (exists i :: IsLastOf(c.modified, known, txn.id, i) && c.modified[i] == txn)
    || (!Brings(c.modified, known, txn.id) && exists i :: IsLastOf(c.added, known, txn.id, i) && c.added[i] == txn)
  }

  /** What becomes of one id: a removal has the last word, then what was brought last, with the bank's own figures. */
  ghost predicate IsAppliedAt(before: Table, after: Table, c: Changes, known: Accounts, id: string) {
    if id in c.removed then id !in after
    else if Brings(c.modified, known, id) || Brings(c.added, known, id) then
      && id in after
      && (forall txn :: IsLastBrought(c, known, txn) && txn.id == id && txn.providerAccount in known ==>
            var bank := after[id].bank;
            && bank.account == known[txn.providerAccount] && bank.date == txn.date && bank.amount == txn.amount
            && bank.merchant == txn.merchant && bank.counterparty == txn.counterparty
            && bank.primary == txn.primary && bank.pending == txn.pending)
      && (if id in before then after[id].facet == before[id].facet
          else !after[id].facet.overridden && after[id].facet.verdict.classification.Unclassified?)
    else (id in after <==> id in before) && (id in before ==> after[id] == before[id])
  }

  ghost predicate AreApplied(before: Table, after: Table, c: Changes, known: Accounts) {
    forall id :: IsAppliedAt(before, after, c, known, id)
  }

  lemma {:induction false} FateOfTheLast(txns: seq<Transaction>, known: Accounts, id: string) returns (i: int)
    ensures !Brings(txns, known, id) ==> Fate(Puts(txns, known), id).None?
    ensures Brings(txns, known, id) ==>
              && IsLastOf(txns, known, id, i)
              && Fate(Puts(txns, known), id) == Some(Put(id, BankOf(txns[i], known)))
  {
    hide BankOf;
    i := -1;
    if txns != [] {
      var n := |txns| - 1;
      var front, last := txns[..n], txns[n];
      assert forall j :: 0 <= j < n ==> txns[j] == front[j];
      assert txns == front + [last];
      if last.providerAccount in known {
        assert Puts(txns, known) == Puts(front, known) + [Put(last.id, BankOf(last, known))];
        FateOfOneMore(Puts(front, known), Put(last.id, BankOf(last, known)), id);
      } else {
        assert Puts(txns, known) == Puts(front, known);
      }
      if last.providerAccount in known && last.id == id {
        i := n;
      } else {
        i := FateOfTheLast(front, known, id);
      }
    }
  }

  lemma FateOfOneMore(ops: seq<Op>, op: Op, id: string)
    ensures Fate(ops + [op], id) == if op.id == id then Some(op) else Fate(ops, id)
  {
    assert (ops + [op])[..|ops|] == ops;
  }

  lemma OnlyOneIsLast(txns: seq<Transaction>, known: Accounts, id: string, i: int)
    requires IsLastOf(txns, known, id, i)
    ensures Brings(txns, known, id) && forall j :: IsLastOf(txns, known, id, j) ==> j == i
  {
  }

  /** The batch's writes are its changes, applied. */
  lemma BatchIsApplied(t: Table, c: Changes, known: Accounts)
    ensures AreApplied(t, WrittenAll(t, BatchOps(c, known)), c, known)
  {
    hide Fate, WrittenAll, Puts, Writes, IsLastOf, Brings;
    forall id ensures IsAppliedAt(t, WrittenAll(t, BatchOps(c, known)), c, known, id) {
      FateOfWrites(c.added, c.modified, c.removed, known, id);
      WhatBecomesOf(t, BatchOps(c, known), id);
      var i := FateOfTheLast(c.modified, known, id);
      var j := FateOfTheLast(c.added, known, id);
      if IsLastOf(c.modified, known, id, i) {
        OnlyOneIsLast(c.modified, known, id, i);
      }
      if IsLastOf(c.added, known, id, j) {
        OnlyOneIsLast(c.added, known, id, j);
      }
      forall k | IsLastOf(c.modified, known, id, k) ensures Brings(c.modified, known, id) {
        OnlyOneIsLast(c.modified, known, id, k);
      }
    }
  }

  lemma OneMorePut(t: Table, txns: seq<Transaction>, known: Accounts, i: nat)
    requires i < |txns|
    ensures WrittenAll(t, Puts(txns[..i + 1], known)) ==
            if txns[i].providerAccount in known
            then Upsert(WrittenAll(t, Puts(txns[..i], known)), txns[i].id, BankOf(txns[i], known))
            else WrittenAll(t, Puts(txns[..i], known))
  {
    hide BankOf, Upsert, WrittenAll, Puts;
    PutsOneMore(txns, known, i);
    if txns[i].providerAccount in known {
      WrittenOneMore(t, Puts(txns[..i], known), Put(txns[i].id, BankOf(txns[i], known)));
    }
  }

  lemma PutsOneMore(txns: seq<Transaction>, known: Accounts, i: nat)
    requires i < |txns|
    ensures Puts(txns[..i + 1], known) ==
            if txns[i].providerAccount in known
            then Puts(txns[..i], known) + [Put(txns[i].id, BankOf(txns[i], known))]
            else Puts(txns[..i], known)
  {
    hide BankOf;
    assert txns[..i + 1][..i] == txns[..i];
  }

  lemma WrittenOneMore(t: Table, ops: seq<Op>, op: Op)
    ensures WrittenAll(t, ops + [op]) == Written(WrittenAll(t, ops), op)
  {
    hide Written;
    assert (ops + [op])[..|ops|] == ops;
  }

  /** The upserts of one list. */
  method UpsertAll(ledger: Ledger, txns: seq<Transaction>, known: Accounts)
    modifies ledger`rows
    ensures ledger.rows == WrittenAll(old(ledger.rows), Puts(txns, known))
  {
    hide WrittenAll, Puts, BankOf, Upsert;
    NoWritesNoChange(ledger.rows, known);
    for i := 0 to |txns|
      invariant ledger.rows == WrittenAll(old(ledger.rows), Puts(txns[..i], known))
    {
      OneMorePut(old(ledger.rows), txns, known, i);
      if txns[i].providerAccount !in known {
        continue;
      }
      ledger.UpsertTransaction(txns[i].id, BankOf(txns[i], known));
    }
    assert txns[..|txns|] == txns;
  }

  lemma NoWritesNoChange(t: Table, known: Accounts)
    ensures WrittenAll(t, Puts([], known)) == t
    ensures WrittenAll(t, []) == t
  {
  }

  /** applyChanges. */
  method ApplyChanges(ledger: Ledger, changes: Changes, known: Accounts)
    modifies ledger`rows
    ensures ledger.rows == WrittenAll(old(ledger.rows), BatchOps(changes, known))
    ensures AreApplied(old(ledger.rows), ledger.rows, changes, known)
  {
    ghost var was := ledger.rows;
    UpsertAll(ledger, changes.added, known);
    UpsertAll(ledger, changes.modified, known);
    ghost var puts := Puts(changes.added, known) + Puts(changes.modified, known);
    WrittenInTurn(was, Puts(changes.added, known), Puts(changes.modified, known));
    var removed := changes.removed;
    hide WrittenAll, Puts, Drops;
    NoWritesNoChange(ledger.rows, known);
    NoWrites(known);
    for i := 0 to |removed|
      invariant ledger.rows == WrittenAll(WrittenAll(was, puts), Drops(removed[..i]))
    {
      OneMoreDrop(WrittenAll(was, puts), removed, i);
      ledger.DeleteTransaction(removed[i]);
    }
    assert removed[..|removed|] == removed;
    WrittenInTurn(was, puts, Drops(removed));
    BatchIsApplied(was, changes, known);
  }

  lemma OneMoreDrop(t: Table, ids: seq<string>, i: nat)
    requires i < |ids|
    ensures WrittenAll(t, Drops(ids[..i + 1])) == Delete(WrittenAll(t, Drops(ids[..i])), ids[i])
  {
    hide Delete;
    assert Drops(ids[..i + 1])[..i] == Drops(ids[..i]);
  }

  ghost predicate PullsFrom(target: Target, cursors: map<string, string>, pages: seq<Page>) {
    IsPull(target.source, CursorOf(cursors, target.connection), 0, MAX_SYNC_PAGES, pages)
  }

  /** The bank fails to answer a request behind these pages. */
  ghost predicate FailsFrom(target: Target, cursors: map<string, string>, pages: seq<Page>) {
    IsRefused(target.source, CursorOf(cursors, target.connection), 0, MAX_SYNC_PAGES, pages, Failure)
  }

  lemma FailureIsWalkedInto(s: State, target: Target)
    ensures WalkOf(s, target) == Refused(Failure) <==> exists pages :: FailsFrom(target, s.cursors, pages)
  {
    hide Walked, IsRefused;
    var cursor := CursorOf(s.cursors, target.connection);
    if WalkOf(s, target) == Refused(Failure) {
      var pages := RefusalEndsAChain(target.source, cursor, 0, MAX_SYNC_PAGES);
      assert FailsFrom(target, s.cursors, pages);
    }
    if pages :| FailsFrom(target, s.cursors, pages) {
      RefusalIsWalkedInto(target.source, cursor, 0, MAX_SYNC_PAGES, pages, Failure);
    }
  }

  lemma PullsAreNotEmpty(target: Target, cursors: map<string, string>, pages: seq<Page>)
    requires PullsFrom(target, cursors, pages)
    ensures pages != []
  {
    hide IsChain;
  }

  /** All that the pages bring is in the rows, and the cursor stands behind the last of them. */
  ghost predicate IsSyncedWith(before: State, after: State, target: Target, pages: seq<Page>) {
    && pages != []
    && var c := Changes(AllAdded(pages), AllModified(pages), AllRemoved(pages), pages[|pages| - 1].next);
       && AreApplied(before.rows, after.rows, c, target.known)
       && after.cursors == before.cursors[target.connection := c.cursor]
  }

  /** syncConnection: a login that needs the user is skipped without an error, any other refusal is one. */
  method SyncConnection(ledger: Ledger, target: Target) returns (r: Result<()>)
    modifies ledger
    ensures State(ledger.rows, ledger.cursors) == AfterConnection(old(State(ledger.rows, ledger.cursors)), target)
    ensures r.Err? <==> old(WalkOf(State(ledger.rows, ledger.cursors), target)) == Refused(Failure)
    ensures forall pages :: PullsFrom(target, old(ledger.cursors), pages) ==>
              r.Ok? && IsSyncedWith(old(State(ledger.rows, ledger.cursors)), State(ledger.rows, ledger.cursors),
                                    target, pages)
    ensures r.Err? <==> exists pages :: FailsFrom(target, old(ledger.cursors), pages)
    ensures (forall pages :: !PullsFrom(target, old(ledger.cursors), pages)) ==>
              ledger.rows == old(ledger.rows) && ledger.cursors == old(ledger.cursors)
  {
    hide WrittenAll, BatchOps, Walked, AreApplied, IsPull, Upsert, Delete;
    ghost var was := State(ledger.rows, ledger.cursors);
    forall pages ensures WalkOf(was, target) == Complete(pages) <==> PullsFrom(target, was.cursors, pages) {
      WalkedIsThePull(target.source, CursorOf(was.cursors, target.connection), 0, MAX_SYNC_PAGES, pages);
    }
    if pages :| PullsFrom(target, was.cursors, pages) {
      PullsAreNotEmpty(target, was.cursors, pages);
    }
    FailureIsWalkedInto(was, target);
    RefusalIsNoAnswer(target.source, CursorOf(ledger.cursors, target.connection), 0, MAX_SYNC_PAGES);
    var pull := PullChanges(target.source, CursorOf(ledger.cursors, target.connection));
    match pull
    case PullReauth => r := Ok(());
    case PullFailed => r := Err("failed to pull transactions");
    case Pulled(changes) =>
      ApplyChanges(ledger, changes, target.known);
      ledger.cursors := ledger.cursors[target.connection := changes.cursor];
      r := Ok(());
  }

  lemma {:induction false} RefusalIsNoAnswer(source: Source, cursor: string, n: nat, left: nat)
    ensures var walk := Walked(source, cursor, n, left); walk.Refused? ==>
            walk.answer == Reauth || walk.answer == Failure
    decreases left
  {
    if left > 0 && source(n, cursor).Answered? {
      RefusalIsNoAnswer(source, source(n, cursor).page.next, n + 1, left - 1);
    }
  }

  /** The pull loop of SyncTransactions: one connection's failure does not stop the others. */
  method SyncConnections(ledger: Ledger, targets: seq<Target>) returns (synced: nat, failed: nat)
    modifies ledger
    ensures State(ledger.rows, ledger.cursors) == AfterTargets(old(State(ledger.rows, ledger.cursors)), targets)
    ensures synced + failed == |targets|
    ensures failed == |set i | 0 <= i < |targets| && old(Fails(State(ledger.rows, ledger.cursors), targets, i))|
  {
    hide AfterConnection, WalkOf, PullsFrom, FailsFrom, IsSyncedWith;
    ghost var was := State(ledger.rows, ledger.cursors);
    ghost var failures: set<int> := {};
    synced, failed := 0, 0;
    for i := 0 to |targets|
      invariant State(ledger.rows, ledger.cursors) == AfterTargets(was, targets[..i])
      invariant synced + failed == i && failed == |failures|
      invariant failures == set j | 0 <= j < i && Fails(was, targets, j)
    {
      assert targets[..i + 1][..i] == targets[..i];
      var r := SyncConnection(ledger, targets[i]);
      assert r.Err? <==> Fails(was, targets, i);
      if r.Err? {
        failed := failed + 1;
        failures := failures + {i};
        continue;
      }
      synced := synced + 1;
    }
    assert targets[..|targets|] == targets;
  }

  /** The i-th pull of the pass is refused for another reason than the user's login. */
  ghost predicate Fails(s: State, targets: seq<Target>, i: int) {
    0 <= i < |targets| && WalkOf(AfterTargets(s, targets[..i]), targets[i]) == Refused(Failure)
  }

  lemma LastTarget(s: State, a: seq<Target>, target: Target)
    ensures AfterTargets(s, a + [target]) == AfterConnection(AfterTargets(s, a), target)
  {
    hide AfterConnection;
    assert (a + [target])[..|a|] == a;
  }

  /** A refused connection leaves no trace: the rest of the pass comes out as if it had not been tried. */
  lemma {:induction false} RefusedConnectionLeavesNoTrace(s: State, a: seq<Target>, target: Target, b: seq<Target>)
    requires WalkOf(AfterTargets(s, a), target).Refused?
    ensures AfterTargets(s, a + [target] + b) == AfterTargets(s, a + b)
  {
    hide Walked, AfterTargets, WrittenAll;
    LastTarget(s, a, target);
    if b == [] {
      assert a + [target] + b == a + [target] && a + b == a;
    } else {
      var front, last := b[..|b| - 1], b[|b| - 1];
      assert a + [target] + b == (a + [target] + front) + [last] && a + b == (a + front) + [last] by {
        assert b == front + [last];
      }
      RefusedConnectionLeavesNoTrace(s, a, target, front);
      LastTarget(s, a + [target] + front, last);
      LastTarget(s, a + front, last);
    }
  }
}
