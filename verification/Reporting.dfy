/** The month's wrap, actuals only (src/internal/reporting/reporting.go). */
module Reporting {
  import opened Categorization
  import opened Common
  import opened Spending

  const SAVINGS_CONTRIBUTION := "savings_contribution"

  datatype WrapTxn = WrapTxn(category: Option<string>, classification: Classification, cents: int, subtype: string,
                             pending: bool)

  datatype WrapState = Settling | Final

  datatype WrapView = WrapView(netIncome: int, grossIncome: int, totalSpending: int, savings: int, surplus: int,
                               byCategory: seq<Spend>, state: WrapState, partial: bool)

  /** The spending rows. */
  function SpendOf(txns: seq<WrapTxn>): seq<Spend> {
    if txns == [] then []
    else
      var last := txns[|txns| - 1];
      SpendOf(txns[..|txns| - 1]) + if last.classification.Spending? then [Spend(last.category, last.cents)] else []
  }

  /** The income legs, negated into a positive total. */
  function IncomeOf(txns: seq<WrapTxn>): int {
    if txns == [] then 0
    else
      var last := txns[|txns| - 1];
      IncomeOf(txns[..|txns| - 1]) + if last.classification.Income? then -last.cents else 0
  }

  /** The source legs of savings contributions. */
  function SavingsOf(txns: seq<WrapTxn>): int {
    if txns == [] then 0
    else
      var last := txns[|txns| - 1];
      SavingsOf(txns[..|txns| - 1]) + if last.subtype == SAVINGS_CONTRIBUTION then last.cents else 0
  }

  function CategoriesOf(spend: seq<Spend>): set<Option<string>> {
    set i | 0 <= i < |spend| :: spend[i].category
  }

  /** The categories spent on, in the order of their first row. */
  function FirstSeen(spend: seq<Spend>): (r: seq<Option<string>>)
    ensures forall i, j :: 0 <= i < j < |r| ==> r[i] != r[j]
    ensures forall c :: c in r <==> c in CategoriesOf(spend)
  {
    if spend == [] then []
    else
      var front, last := FirstSeen(spend[..|spend| - 1]), spend[|spend| - 1];
      assert CategoriesOf(spend) == CategoriesOf(spend[..|spend| - 1]) + {last.category} by {
        assert forall i :: 0 <= i < |spend| - 1 ==> spend[i] == spend[..|spend| - 1][i];
      }
      if last.category in front then front else front + [last.category]
  }

  /** One entry for each category spent on, in that order, carrying the category's whole net. */
  ghost predicate Groups(groups: seq<Spend>, spend: seq<Spend>) {
    && |groups| == |FirstSeen(spend)|
    && forall i :: 0 <= i < |groups| ==> groups[i] == Spend(FirstSeen(spend)[i], Net(spend, iset{FirstSeen(spend)[i]}))
  }

  /** The index map and the nil index of the loop point at the entries. */
  ghost predicate Indexes(indexOf: map<string, nat>, nilIndex: int, groups: seq<Spend>) {
    && (forall id :: id in indexOf ==> indexOf[id] < |groups| && groups[indexOf[id]].category == Some(id))
    && (forall i :: 0 <= i < |groups| && groups[i].category.Some? ==>
          groups[i].category.value in indexOf && indexOf[groups[i].category.value] == i)
    && (if nilIndex == -1 then forall i :: 0 <= i < |groups| ==> groups[i].category.Some?
        else 0 <= nilIndex < |groups| && groups[nilIndex].category.None?
             && forall i :: 0 <= i < |groups| && groups[i].category.None? ==> i == nilIndex)
  }

  /** Adding a row to its entry, or to a new one. */
  lemma AddToEntry(groups: seq<Spend>, spend: seq<Spend>, s: Spend, i: nat)
    requires Groups(groups, spend)
    requires if i < |groups| then groups[i].category == s.category
             else i == |groups| && forall j :: 0 <= j < i ==> groups[j].category != s.category
    ensures var next := if i < |groups| then groups[i := Spend(s.category, groups[i].net + s.net)] else groups + [s];
            Groups(next, spend + [s])
  {
    hide Net, CategoriesOf;
    var seen, more := FirstSeen(spend), spend + [s];
    assert more[..|spend|] == spend && more[..|spend| + 1] == more;
    forall c: Option<string> ensures Net(more, iset{c}) == Net(spend, iset{c}) + if c == s.category then s.net else 0 {
      OneMoreSpend(more, |spend|, iset{c});
    }
    if i == |groups| {
      forall j | 0 <= j < |seen| ensures seen[j] != s.category {
        assert groups[j].category == seen[j];
      }
      UnseenIsUnspent(spend, s.category);
    }
  }

  lemma UnseenIsUnspent(spend: seq<Spend>, c: Option<string>)
    requires c !in FirstSeen(spend)
    ensures Net(spend, iset{c}) == 0
  {
    hide Net, FirstSeen;
    UnspentCategoriesAreZero(spend, iset{c});
  }

  lemma OneMoreTxn(txns: seq<WrapTxn>, i: nat)
    requires i < |txns|
    ensures var t, front := txns[i], txns[..i];
            && IncomeOf(txns[..i + 1]) == IncomeOf(front) + (if t.classification.Income? then -t.cents else 0)
            && SavingsOf(txns[..i + 1]) == SavingsOf(front) + (if t.subtype == SAVINGS_CONTRIBUTION then t.cents else 0)
            && SpendOf(txns[..i + 1]) ==
               if t.classification.Spending? then SpendOf(front) + [Spend(t.category, t.cents)] else SpendOf(front)
  {
    assert txns[..i + 1][..i] == txns[..i];
  }

  /** A new entry is indexed by its category. */
  lemma IndexEntry(indexOf: map<string, nat>, nilIndex: int, groups: seq<Spend>, c: Option<string>)
    requires Indexes(indexOf, nilIndex, groups)
    requires if c.Some? then c.value !in indexOf else nilIndex == -1
    ensures var longer := groups + [Spend(c, 0)];
            if c.Some? then Indexes(indexOf[c.value := |groups|], nilIndex, longer)
            else Indexes(indexOf, |groups|, longer)
    ensures forall i :: 0 <= i < |groups| ==> groups[i].category != c
  {
  }

  /** A changed amount moves no entry. */
  lemma IndexKeeps(indexOf: map<string, nat>, nilIndex: int, groups: seq<Spend>, i: nat, net: int)
    requires Indexes(indexOf, nilIndex, groups) && i < |groups|
    ensures Indexes(indexOf, nilIndex, groups[i := groups[i].(net := net)])
  {
  }

  /** BuildWrap. */
  method BuildWrap(txns: seq<WrapTxn>, partial: bool) returns (view: WrapView)
    ensures view.grossIncome == IncomeOf(txns) && view.savings == SavingsOf(txns)
    ensures view.totalSpending == Net(SpendOf(txns), EVERY)
    ensures view.netIncome == view.grossIncome - view.totalSpending
    ensures view.surplus == view.netIncome - view.savings
    ensures Groups(view.byCategory, SpendOf(txns))
    ensures view.state.Settling? <==> exists i :: 0 <= i < |txns| && txns[i].pending
    ensures view.partial == partial
  {
    hide Net, Groups, Indexes, SpendOf, IncomeOf, SavingsOf;
    var totalIncome, totalSpending, savings, state := 0, 0, 0, Final;
    var groups: seq<Spend>, indexOf: map<string, nat>, nilIndex := [], map[], -1;
    NothingWrapped();
    for i := 0 to |txns|
      invariant totalIncome == IncomeOf(txns[..i]) && savings == SavingsOf(txns[..i])
      invariant totalSpending == Net(SpendOf(txns[..i]), EVERY)
      invariant Groups(groups, SpendOf(txns[..i])) && Indexes(indexOf, nilIndex, groups)
      invariant state.Settling? <==> exists j :: 0 <= j < i && txns[j].pending
    {
      var t := txns[i];
      OneMoreTxn(txns, i);
      if t.pending {
        state := Settling;
      }
      if t.subtype == SAVINGS_CONTRIBUTION {
        savings := savings + t.cents;
      }
      match t.classification
      case Income =>
        totalIncome := totalIncome + -t.cents;
      case Spending =>
        totalSpending := totalSpending + t.cents;
        groups, indexOf, nilIndex := AddSpending(groups, indexOf, nilIndex, t, SpendOf(txns[..i]));
      case _ =>
    }
    assert txns[..|txns|] == txns;
    view := WrapView(totalIncome - totalSpending, totalIncome, totalSpending, savings,
                     totalIncome - totalSpending - savings,
                     groups, state, partial);
  }

  lemma NothingWrapped()
    ensures IncomeOf([]) == 0 && SavingsOf([]) == 0 && SpendOf([]) == [] && Net([], EVERY) == 0
    ensures Groups([], []) && Indexes(map[], -1, [])
  {
  }

  /** One spending row into its entry, opening it on the category's first row. */
  method AddSpending(groups: seq<Spend>, indexOf: map<string, nat>, nilIndex: int, t: WrapTxn, ghost spend: seq<Spend>)
    returns (next: seq<Spend>, nextIndexOf: map<string, nat>, nextNil: int)
    requires Groups(groups, spend) && Indexes(indexOf, nilIndex, groups)
    ensures Groups(next, spend + [Spend(t.category, t.cents)]) && Indexes(nextIndexOf, nextNil, next)
    ensures Net(spend + [Spend(t.category, t.cents)], EVERY) == Net(spend, EVERY) + t.cents
  {
    hide Groups, FirstSeen;
    next, nextIndexOf, nextNil := groups, indexOf, nilIndex;
    var i: nat;
    ghost var s := Spend(t.category, t.cents);
    if t.category.None? {
      if nextNil == -1 {
        IndexEntry(indexOf, nilIndex, groups, t.category);
        nextNil := |next|;
        next := next + [Spend(None, 0)];
      }
      i := nextNil;
    } else {
      var id := t.category.value;
      if id !in indexOf {
        IndexEntry(indexOf, nilIndex, groups, t.category);
        nextIndexOf := nextIndexOf[id := |next|];
        next := next + [Spend(Some(id), 0)];
      }
      i := nextIndexOf[id];
    }
    AddToEntry(groups, spend, s, i);
    IndexKeeps(nextIndexOf, nextNil, next, i, next[i].net + t.cents);
    next := next[i := next[i].(net := next[i].net + t.cents)];
    assert next == if i < |groups| then groups[i := Spend(s.category, groups[i].net + s.net)] else groups + [s];
    assert (spend + [s])[..|spend|] == spend;
  }

  // ------------------------------------------------------------- partition

  /** Over any categories at all, the entries sum to what the rows sum to: no row is lost or counted twice. */
  lemma GroupsReconcile(groups: seq<Spend>, spend: seq<Spend>, categories: Categories)
    requires Groups(groups, spend)
    ensures Net(groups, categories) == Net(spend, categories)
  {
    hide Net, FirstSeen;
    GroupsReconcileUpTo(groups, spend, categories, |groups|);
    assert groups[..|groups|] == groups;
    var seen := SeenBefore(spend, |groups|);
    forall i | 0 <= i < |spend| ensures spend[i].category in seen {
      assert spend[i].category in CategoriesOf(spend);
    }
    DisjointNetsAdd(spend, categories * seen, categories - seen);
    UnspentCategoriesAreZero(spend, categories - seen);
    assert categories * seen + (categories - seen) == categories;
  }

  ghost function SeenBefore(spend: seq<Spend>, n: nat): Categories {
    iset i | 0 <= i < n && i < |FirstSeen(spend)| :: FirstSeen(spend)[i]
  }

  lemma {:induction false} GroupsReconcileUpTo(groups: seq<Spend>, spend: seq<Spend>, categories: Categories, n: nat)
    requires Groups(groups, spend) && n <= |groups|
    ensures Net(groups[..n], categories) == Net(spend, categories * SeenBefore(spend, n))
  {
    hide Net, FirstSeen;
    if n == 0 {
      UnspentCategoriesAreZero(spend, categories * SeenBefore(spend, 0));
      UnspentCategoriesAreZero(groups[..0], categories);
    } else {
      GroupsReconcileUpTo(groups, spend, categories, n - 1);
      OneMoreSpend(groups, n - 1, categories);
      var c := FirstSeen(spend)[n - 1];
      var before := categories * SeenBefore(spend, n - 1);
      if c in categories {
        DisjointNetsAdd(spend, before, iset{c});
        assert before + iset{c} == categories * SeenBefore(spend, n);
      } else {
        assert before == categories * SeenBefore(spend, n);
      }
    }
  }
}
