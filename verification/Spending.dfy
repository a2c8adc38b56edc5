/** Signed sums over the month's spending, in integer cents (outflow positive, refund negative). */
module Spending {
  import opened Common

  /** One spending row: its category, None when uncategorized, and its signed amount. */
  datatype Spend = Spend(category: Option<string>, net: int)

  /** A set of categories, the uncategorized one possibly among them. */
  type Categories = iset<Option<string>>

  ghost const EVERY: Categories := iset c: Option<string> | true

  /** The net spend on a set of categories. */
  ghost function Net(spend: seq<Spend>, categories: Categories): int {
    if spend == [] then 0
    else
      var last := spend[|spend| - 1];
      Net(spend[..|spend| - 1], categories) + if last.category in categories then last.net else 0
  }

  /** The categories with an id in ids. */
  ghost function Those(ids: set<string>): Categories {
    iset c: Option<string> | c.Some? && c.value in ids
  }

  /** Everything no id in ids covers: the other categories and the uncategorized. */
  ghost function AllBut(ids: set<string>): Categories {
    iset c: Option<string> | c.None? || c.value !in ids
  }

  lemma {:induction false} DisjointNetsAdd(spend: seq<Spend>, a: Categories, b: Categories)
    requires a !! b
    ensures Net(spend, a + b) == Net(spend, a) + Net(spend, b)
  {
    if spend != [] {
      DisjointNetsAdd(spend[..|spend| - 1], a, b);
    }
  }

  lemma {:induction false} UnspentCategoriesAreZero(spend: seq<Spend>, categories: Categories)
    requires forall i :: 0 <= i < |spend| ==> spend[i].category !in categories
    ensures Net(spend, categories) == 0
  {
    if spend != [] {
      UnspentCategoriesAreZero(spend[..|spend| - 1], categories);
    }
  }

  /** What ids cover and what they leave out are all of the spending. */
  lemma CoveredAndLeftOut(spend: seq<Spend>, ids: set<string>)
    ensures Net(spend, Those(ids)) + Net(spend, AllBut(ids)) == Net(spend, EVERY)
  {
    hide Net;
    DisjointNetsAdd(spend, Those(ids), AllBut(ids));
    assert Those(ids) + AllBut(ids) == EVERY;
  }

  lemma OneMoreId(spend: seq<Spend>, ids: set<string>, id: string)
    requires id !in ids
    ensures Net(spend, Those(ids + {id})) == Net(spend, Those(ids)) + Net(spend, iset{Some(id)})
  {
    hide Net;
    DisjointNetsAdd(spend, Those(ids), iset{Some(id)});
    assert Those(ids) + iset{Some(id)} == Those(ids + {id});
  }

  lemma OneMoreSpend(spend: seq<Spend>, n: nat, categories: Categories)
    requires n < |spend|
    ensures Net(spend[..n + 1], categories) ==
            Net(spend[..n], categories) + if spend[n].category in categories then spend[n].net else 0
  {
    assert spend[..n + 1][..n] == spend[..n];
  }
}
