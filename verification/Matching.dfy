/**
 Judging which checking transaction satisfies an occurrence
 (src/internal/schedule/schedule.go, bestCandidate and what it calls).
 */
module Matching {
  import opened Common
  import opened Calendar
  import opened Schedule
  import opened Windows
  import opened Sequences

  /** A checking transaction, outflow positive. Its date is a calendar date. */
  datatype Candidate = Candidate(id: string, date: Date, amount: real, merchant: string)

  predicate DirectionAgrees(item: Item, c: Candidate) {
    if item.direction.Out? then c.amount > 0.0 else c.amount < 0.0
  }

  /** amountAdmissible: half to double under the learned merchant, else within 5 percent or 5.00. */
  predicate AmountAdmissible(item: Item, c: Candidate, learned: string)
    requires item.amount.Some?
  {
    var expected, actual := item.amount.value, RealAbs(c.amount);
    if learned != "" && c.merchant == learned then expected * 0.5 <= actual <= expected * 2.0
    else RealAbs(actual - expected) <= RealMax(expected * 0.05, 5.0)
  }

  predicate Admissible(item: Item, o: Date, c: Candidate, learned: string) {
    && item.amount.Some?
    && DirectionAgrees(item, c)
    && DaysApart(c.date, o) <= MatchDateTolerance
    && AmountAdmissible(item, c, learned)
  }

  /** takenElsewhere: already settling a different occurrence than the holder's. */
  predicate TakenElsewhere(claimedBy: map<string, string>, id: string, holder: string) {
    id in claimedBy && claimedBy[id] != holder
  }

  /** How far the candidate's magnitude is from the expected one. */
  function AmountApart(expected: real, c: Candidate): real {
    RealAbs(RealAbs(c.amount) - expected)
  }

  /** compareCandidates == -1: nearer in date, or as near and nearer in amount. */
  predicate Beats(item: Item, o: Date, a: Candidate, b: Candidate) {
    && item.amount.Some?
    && (DaysApart(a.date, o) < DaysApart(b.date, o) ||
        (DaysApart(a.date, o) == DaysApart(b.date, o)
         && AmountApart(item.amount.value, a) < AmountApart(item.amount.value, b)))
  }

  /** Nearness is a strict weak order, so "not beaten" passes from the best so far to the whole list. */
  lemma BeatsIsAnOrder(item: Item, o: Date, a: Candidate, b: Candidate, c: Candidate)
    ensures Beats(item, o, a, b) ==> !Beats(item, o, b, a)
    ensures Beats(item, o, a, b) && !Beats(item, o, c, b) ==> Beats(item, o, a, c)
    ensures Beats(item, o, a, b) && Beats(item, o, b, c) ==> Beats(item, o, a, c)
  {
  }

  predicate Eligible(item: Item, o: Date, c: Candidate, learned: string, holder: string,
                     claimedBy: map<string, string>) {
    !TakenElsewhere(claimedBy, c.id, holder) && Admissible(item, o, c, learned)
  }

  /** Candidate i is eligible and strictly beats every other eligible one. */
  ghost predicate Wins(item: Item, o: Date, candidates: seq<Candidate>, learned: string, holder: string,
                       claimedBy: map<string, string>, i: nat) {
    && i < |candidates| && Eligible(item, o, candidates[i], learned, holder, claimedBy)
    && forall j :: 0 <= j < |candidates| && j != i && Eligible(item, o, candidates[j], learned, holder, claimedBy) ==>
         Beats(item, o, candidates[i], candidates[j])
  }

  /** The unique strict minimum among the eligible candidates, if there is one. */
  ghost function Best(item: Item, o: Date, candidates: seq<Candidate>, learned: string, holder: string,
                      claimedBy: map<string, string>): (best: Option<Candidate>)
    ensures best.Some? ==> best.value in candidates && Eligible(item, o, best.value, learned, holder, claimedBy)
  {
    if exists i: nat :: Wins(item, o, candidates, learned, holder, claimedBy, i) then
      var i: nat :| Wins(item, o, candidates, learned, holder, claimedBy, i);
      Some(candidates[i])
    else None
  }

  /** Two candidates cannot both win. */
  lemma WinnerIsUnique(item: Item, o: Date, candidates: seq<Candidate>, learned: string, holder: string,
                       claimedBy: map<string, string>, i: nat)
    requires Wins(item, o, candidates, learned, holder, claimedBy, i)
    ensures Best(item, o, candidates, learned, holder, claimedBy) == Some(candidates[i])
  {
    forall j: nat | Wins(item, o, candidates, learned, holder, claimedBy, j)
      ensures j == i
    {
      AtMostOneWins(item, o, candidates, learned, holder, claimedBy, i, j);
    }
  }

  // ------------------------------------------- the winner, in plain figures

  /** Days and dollars between a candidate and what the occurrence declares. */
  function DaysOff(o: Date, c: Candidate): int {
    if c.date < o then o - c.date else c.date - o
  }

  function DollarsOff(expected: real, c: Candidate): real {
    var paid := if c.amount < 0.0 then -c.amount else c.amount;
    if paid < expected then expected - paid else paid - expected
  }

  /** Half to double under the merchant learned for the item, else 5 percent or 5.00 off, whichever is more. */
  predicate AmountFits(expected: real, c: Candidate, learned: string) {
    var paid := if c.amount < 0.0 then -c.amount else c.amount;
    if learned != "" && c.merchant == learned then expected <= 2.0 * paid && paid <= 2.0 * expected
    else DollarsOff(expected, c) <= 5.0 || 20.0 * DollarsOff(expected, c) <= expected
  }

  /** A free transaction in the item's direction, at most five days off, of a fitting amount. */
  predicate CouldSettle(item: Item, o: Date, c: Candidate, learned: string, holder: string,
                        claimedBy: map<string, string>)
  {
    && (c.id in claimedBy ==> claimedBy[c.id] == holder)
    && (item.direction.Out? ==> c.amount > 0.0) && (item.direction.In? ==> c.amount < 0.0)
    && DaysOff(o, c) <= 5
    && item.amount.Some? && AmountFits(item.amount.value, c, learned)
  }

  /** Fewer days off, or as many and fewer dollars. */
  predicate IsNearer(item: Item, o: Date, c: Candidate, other: Candidate)
    requires item.amount.Some?
  {
    || DaysOff(o, c) < DaysOff(o, other)
    || (DaysOff(o, c) == DaysOff(o, other)
        && DollarsOff(item.amount.value, c) < DollarsOff(item.amount.value, other))
  }

  /** The one candidate that could settle the occurrence and is nearer than every other that could. */
  ghost predicate IsNearestOf(item: Item, o: Date, candidates: seq<Candidate>, learned: string, holder: string,
                              claimedBy: map<string, string>, i: int)
  {
    && 0 <= i < |candidates| && CouldSettle(item, o, candidates[i], learned, holder, claimedBy)
    && forall j ::
         0 <= j < |candidates| && j != i && CouldSettle(item, o, candidates[j], learned, holder, claimedBy) ==>
         IsNearer(item, o, candidates[i], candidates[j])
  }

  lemma EligibleCouldSettle(item: Item, o: Date, c: Candidate, learned: string, holder: string,
                            claimedBy: map<string, string>)
    ensures Eligible(item, o, c, learned, holder, claimedBy) <==> CouldSettle(item, o, c, learned, holder, claimedBy)
  {
  }

  lemma BeatsIsNearer(item: Item, o: Date, a: Candidate, b: Candidate)
    requires item.amount.Some?
    ensures Beats(item, o, a, b) <==> IsNearer(item, o, a, b)
  {
  }

  lemma WinsIsNearest(item: Item, o: Date, candidates: seq<Candidate>, learned: string, holder: string,
                      claimedBy: map<string, string>, i: nat)
    ensures Wins(item, o, candidates, learned, holder, claimedBy, i) <==>
            IsNearestOf(item, o, candidates, learned, holder, claimedBy, i)
  {
    hide Eligible, Beats, IsNearer;
    forall j | 0 <= j < |candidates|
      ensures Eligible(item, o, candidates[j], learned, holder, claimedBy) <==>
              CouldSettle(item, o, candidates[j], learned, holder, claimedBy)
    {
      EligibleCouldSettle(item, o, candidates[j], learned, holder, claimedBy);
    }
    if item.amount.Some? && i < |candidates| {
      forall j | 0 <= j < |candidates|
        ensures Beats(item, o, candidates[i], candidates[j]) <==> IsNearer(item, o, candidates[i], candidates[j])
      {
        BeatsIsNearer(item, o, candidates[i], candidates[j]);
      }
    }
  }

  /** The winner is the nearest that could settle the occurrence, and there is one exactly when one is nearest alone. */
  lemma BestIsTheNearest(item: Item, o: Date, candidates: seq<Candidate>, learned: string, holder: string,
                         claimedBy: map<string, string>)
    ensures var best := Best(item, o, candidates, learned, holder, claimedBy);
            && (best.Some? <==> exists i :: IsNearestOf(item, o, candidates, learned, holder, claimedBy, i))
            && forall i :: IsNearestOf(item, o, candidates, learned, holder, claimedBy, i) ==>
               best == Some(candidates[i])
  {
    hide Wins, CouldSettle, IsNearer;
    forall i | IsNearestOf(item, o, candidates, learned, holder, claimedBy, i)
      ensures Best(item, o, candidates, learned, holder, claimedBy) == Some(candidates[i])
    {
      WinsIsNearest(item, o, candidates, learned, holder, claimedBy, i);
      WinnerIsUnique(item, o, candidates, learned, holder, claimedBy, i);
    }
    if Best(item, o, candidates, learned, holder, claimedBy).Some? {
      var i: nat :| Wins(item, o, candidates, learned, holder, claimedBy, i);
      WinsIsNearest(item, o, candidates, learned, holder, claimedBy, i);
    }
  }

  /**
   bestCandidate: one pass that keeps the best so far and whether it is tied. It returns the
   strict minimum and declines exactly when no candidate is eligible or the minimum is tied.
   */
  method BestCandidate(item: Item, o: Date, candidates: seq<Candidate>, learned: string, holder: string,
                       claimedBy: map<string, string>) returns (winner: Option<Candidate>)
    ensures winner == Best(item, o, candidates, learned, holder, claimedBy)
    ensures winner.Some? <==> exists i :: IsNearestOf(item, o, candidates, learned, holder, claimedBy, i)
    ensures forall i :: IsNearestOf(item, o, candidates, learned, holder, claimedBy, i) ==>
            winner == Some(candidates[i])
  {
    hide IsNearestOf;
    BestIsTheNearest(item, o, candidates, learned, holder, claimedBy);
    hide Admissible, TakenElsewhere, Best, Beats;
    var best: Option<Candidate> := None;
    var tied := false;
    ghost var b, rival: nat := 0, 0;
    for n := 0 to |candidates|
      invariant best.None? ==> !tied && forall j :: 0 <= j < n ==>
                  !Eligible(item, o, candidates[j], learned, holder, claimedBy)
      invariant best.Some? ==>
                  && b < n && best == Some(candidates[b])
                  && Eligible(item, o, candidates[b], learned, holder, claimedBy)
                  && forall j :: 0 <= j < n && Eligible(item, o, candidates[j], learned, holder, claimedBy) ==>
                       !Beats(item, o, candidates[j], candidates[b])
      invariant tied ==>
                  && rival < n && rival != b
                  && Eligible(item, o, candidates[rival], learned, holder, claimedBy)
                  && !Beats(item, o, candidates[b], candidates[rival])
      invariant best.Some? && !tied ==>
                  forall j :: 0 <= j < n && j != b && Eligible(item, o, candidates[j], learned, holder, claimedBy) ==>
                    Beats(item, o, candidates[b], candidates[j])
    {
      var c := candidates[n];
      if TakenElsewhere(claimedBy, c.id, holder) || !Admissible(item, o, c, learned) {
        continue;
      }
      BeatsIsAnOrder(item, o, c, c, c);
      if best.None? {
        best := Some(c);
        b := n;
        continue;
      }
      BeatsIsAnOrder(item, o, c, best.value, c);
      if Beats(item, o, c, best.value) {
        forall j | 0 <= j < n && Eligible(item, o, candidates[j], learned, holder, claimedBy)
          ensures Beats(item, o, c, candidates[j]) && !Beats(item, o, candidates[j], c)
        {
          BeatsIsAnOrder(item, o, c, best.value, candidates[j]);
          BeatsIsAnOrder(item, o, c, candidates[j], c);
        }
        best, tied := Some(c), false;
        b := n;
      } else if !Beats(item, o, best.value, c) {
        tied := true;
        rival := n;
      }
    }
    if best.None? || tied {
      winner := None;
      if tied {
        TiedMeansNoWinner(item, o, candidates, learned, holder, claimedBy, b, rival);
      } else {
        NoneEligibleMeansNoWinner(item, o, candidates, learned, holder, claimedBy);
      }
    } else {
      winner := best;
      WinnerIsUnique(item, o, candidates, learned, holder, claimedBy, b);
    }
  }

  lemma AtMostOneWins(item: Item, o: Date, candidates: seq<Candidate>, learned: string, holder: string,
                      claimedBy: map<string, string>, i: nat, j: nat)
    requires Wins(item, o, candidates, learned, holder, claimedBy, i)
    requires Wins(item, o, candidates, learned, holder, claimedBy, j)
    ensures i == j
  {
    hide Eligible, Beats;
    BeatsIsAnOrder(item, o, candidates[i], candidates[j], candidates[j]);
  }

  lemma TiedMeansNoWinner(item: Item, o: Date, candidates: seq<Candidate>, learned: string, holder: string,
                          claimedBy: map<string, string>, b: nat, j: nat)
    requires b < |candidates| && j < |candidates| && j != b
    requires Eligible(item, o, candidates[b], learned, holder, claimedBy)
    requires Eligible(item, o, candidates[j], learned, holder, claimedBy)
    requires !Beats(item, o, candidates[b], candidates[j])
    requires forall k :: 0 <= k < |candidates| && Eligible(item, o, candidates[k], learned, holder, claimedBy) ==>
               !Beats(item, o, candidates[k], candidates[b])
    ensures Best(item, o, candidates, learned, holder, claimedBy) == None
  {
    hide Eligible, Beats;
  }

  lemma NoneEligibleMeansNoWinner(item: Item, o: Date, candidates: seq<Candidate>, learned: string, holder: string,
                                  claimedBy: map<string, string>)
    requires forall j :: 0 <= j < |candidates| ==> !Eligible(item, o, candidates[j], learned, holder, claimedBy)
    ensures Best(item, o, candidates, learned, holder, claimedBy) == None
  {
  }

  /** The decision does not depend on the order the ledger lists its rows in. */
  lemma BestIgnoresOrder(item: Item, o: Date, a: seq<Candidate>, b: seq<Candidate>, learned: string, holder: string,
                         claimedBy: map<string, string>)
    requires multiset(a) == multiset(b)
    ensures Best(item, o, a, learned, holder, claimedBy) == Best(item, o, b, learned, holder, claimedBy)
  {
    if i: nat :| Wins(item, o, a, learned, holder, claimedBy, i) {
      var j := WinnerMoves(item, o, a, b, learned, holder, claimedBy, i);
      WinnerIsUnique(item, o, a, learned, holder, claimedBy, i);
      WinnerIsUnique(item, o, b, learned, holder, claimedBy, j);
    } else if j: nat :| Wins(item, o, b, learned, holder, claimedBy, j) {
      var i := WinnerMoves(item, o, b, a, learned, holder, claimedBy, j);
    }
  }

  lemma WinnerMoves(item: Item, o: Date, a: seq<Candidate>, b: seq<Candidate>, learned: string, holder: string,
                    claimedBy: map<string, string>, i: nat) returns (j: nat)
    requires multiset(a) == multiset(b)
    requires Wins(item, o, a, learned, holder, claimedBy, i)
    ensures j < |b| && b[j] == a[i] && Wins(item, o, b, learned, holder, claimedBy, j)
  {
    hide Eligible, Beats;
    assert a[i] in multiset(b);
    j :| 0 <= j < |b| && b[j] == a[i];
    forall k | 0 <= k < |b| && k != j && Eligible(item, o, b[k], learned, holder, claimedBy)
      ensures Beats(item, o, b[j], b[k])
    {
      var l := CounterpartOf(a, i, b, j, k);
    }
  }

  // ------------------------------------------------------- effective amount

  /** The most an outflow has come to, the least an inflow has. */
  ghost predicate IsExtreme(item: Item, matched: seq<Candidate>, amount: real) {
    && (exists i :: 0 <= i < |matched| && RealAbs(matched[i].amount) == amount)
    && forall i :: 0 <= i < |matched| ==>
         if item.direction.Out? then RealAbs(matched[i].amount) <= amount else amount <= RealAbs(matched[i].amount)
  }

  /** EffectiveAmount: the declared figure, else the cautious extreme of the matches, else no figure at all. */
  ghost predicate IsEffective(item: Item, matched: seq<Candidate>, amount: Option<real>) {
    if item.amount.Some? then amount == item.amount
    else if matched == [] then amount.None?
    else amount.Some? && IsExtreme(item, matched, amount.value)
  }

  method EffectiveAmount(item: Item, matched: seq<Candidate>) returns (amount: Option<real>)
    ensures IsEffective(item, matched, amount)
  {
    if item.amount.Some? {
      return item.amount;
    }
    if |matched| == 0 {
      return None;
    }
    hide RealAbs;
    var best := RealAbs(matched[0].amount);
    for n := 1 to |matched|
      invariant exists i :: 0 <= i < n && RealAbs(matched[i].amount) == best
      invariant forall i :: 0 <= i < n ==>
                  if item.direction.Out? then RealAbs(matched[i].amount) <= best else best <= RealAbs(matched[i].amount)
    {
      var actual := RealAbs(matched[n].amount);
      match item.direction
      case Out =>
        if actual > best {
          best := actual;
        }
      case In =>
        if actual < best {
          best := actual;
        }
    }
    amount := Some(best);
  }

  /** The figure is one value, whatever order the matches are read in. */
  lemma EffectiveAmountIgnoresOrder(item: Item, a: seq<Candidate>, b: seq<Candidate>, x: Option<real>, y: Option<real>)
    requires multiset(a) == multiset(b) && IsEffective(item, a, x) && IsEffective(item, b, y)
    ensures x == y
  {
    hide RealAbs;
    assert |a| == |multiset(a)| == |multiset(b)| == |b|;
    if item.amount.None? && a != [] {
      var i :| 0 <= i < |a| && RealAbs(a[i].amount) == x.value;
      var j :| 0 <= j < |b| && RealAbs(b[j].amount) == y.value;
      assert a[i] in multiset(b) && b[j] in multiset(a);
      assert a[i] in b && b[j] in a;
    }
  }

  // ------------------------------------------------------------------ offer

  /** Every row as often as it is read, on the side it belongs to. */
  ghost predicate IsSplit(rows: seq<Candidate>, admissible: seq<Candidate>, other: seq<Candidate>, claimed: set<string>,
                          item: Item, o: Date, learned: string)
  {
    forall c: Candidate ::
      && multiset(admissible)[c] ==
         (if c.id !in claimed && Admissible(item, o, c, learned) then multiset(rows)[c] else 0)
      && multiset(other)[c] == (if c.id !in claimed && !Admissible(item, o, c, learned) then multiset(rows)[c] else 0)
  }

  /** offer: the unclaimed rows, the admissible ones first. */
  method Offer(rows: seq<Candidate>, claimed: set<string>, item: Item, o: Date, learned: string)
    returns (admissible: seq<Candidate>, other: seq<Candidate>)
    ensures IsSplit(rows, admissible, other, claimed, item, o, learned)
  {
    hide Admissible, IsSplit;
    admissible, other := [], [];
    NothingSplit(claimed, item, o, learned);
    for i := 0 to |rows|
      invariant IsSplit(rows[..i], admissible, other, claimed, item, o, learned)
    {
      OneMoreSplit(rows, i, admissible, other, claimed, item, o, learned);
      if rows[i].id in claimed {
        continue;
      }
      if Admissible(item, o, rows[i], learned) {
        admissible := admissible + [rows[i]];
        continue;
      }
      other := other + [rows[i]];
    }
    assert rows[..|rows|] == rows;
  }

  /** The admissible side holds what could settle the occurrence if nothing were claimed. */
  lemma AdmissibleCouldSettle(item: Item, o: Date, c: Candidate, learned: string)
    ensures Admissible(item, o, c, learned) <==> CouldSettle(item, o, c, learned, "", map[])
  {
  }

  lemma NothingSplit(claimed: set<string>, item: Item, o: Date, learned: string)
    ensures IsSplit([], [], [], claimed, item, o, learned)
  {
  }

  lemma OneMoreSplit(rows: seq<Candidate>, i: nat, admissible: seq<Candidate>, other: seq<Candidate>,
                     claimed: set<string>,
                     item: Item, o: Date, learned: string)
    requires i < |rows| && IsSplit(rows[..i], admissible, other, claimed, item, o, learned)
    ensures var (c, next) := (rows[i], rows[..i + 1]);
            if c.id in claimed then IsSplit(next, admissible, other, claimed, item, o, learned)
            else if Admissible(item, o, c, learned)
            then IsSplit(next, admissible + [c], other, claimed, item, o, learned)
            else IsSplit(next, admissible, other + [c], claimed, item, o, learned)
  {
    hide Admissible;
    assert rows[..i + 1] == rows[..i] + [rows[i]];
  }
}
