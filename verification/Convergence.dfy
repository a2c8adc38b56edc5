/**
 Repeated resolution settles down (src/internal/schedule/service.go, ResolveOccurrenceMatches).
 With the ledger, the day and the items' amounts fixed, each pass that changes the table
 moves every occurrence it changes to a strictly better transaction, so only finitely many
 passes change it at all.
 */
module Convergence {
  import opened Common
  import opened Calendar
  import opened DateText
  import opened Schedule
  import opened Matching
  import opened MatchStore
  import opened Resolution

  ghost predicate Fixed(env: Env) {
    DistinctItems(env.items) && LedgerKeyed(env.ledger)
  }

  // ----------------------------------------------------------------- ranks

  /** How many candidates beat c for the occurrence. */
  function CountBetter(item: Item, o: Date, candidates: seq<Candidate>, c: Candidate): (n: nat)
    ensures n <= |candidates|
  {
    if candidates == [] then 0
    else CountBetter(item, o, candidates[..|candidates| - 1], c)
         + (if Beats(item, o, candidates[|candidates| - 1], c) then 1 else 0)
  }

  lemma {:induction false} BetterCountsLess(item: Item, o: Date, candidates: seq<Candidate>, w: Candidate, c: Candidate)
    requires Beats(item, o, w, c)
    ensures CountBetter(item, o, candidates, w) <= CountBetter(item, o, candidates, c)
    ensures w in candidates ==> CountBetter(item, o, candidates, w) < CountBetter(item, o, candidates, c)
  {
    hide Beats;
    if candidates != [] {
      var n := |candidates| - 1;
      BetterCountsLess(item, o, candidates[..n], w, c);
      BeatsIsAnOrder(item, o, candidates[n], w, c);
      BeatsIsAnOrder(item, o, w, w, w);
      assert candidates == candidates[..n] + [candidates[n]];
    }
  }

  /** The admissible candidate that an automatic row already holds for a visited occurrence. */
  ghost function Standing(t: Table, env: Env, learned: map<string, string>, v: Visit): Option<Candidate> {
    var k := OccurrenceOf(v);
    if k !in t || t[k].txn.None? then None
    else
      var c := FindByID(env.ledger, t[k].txn.value);
      if c.Some? && c.value in CandidatesFor(env, v.item)
          && Admissible(v.item, v.day, c.value, LearnedFor(learned, v.item.id))
      then c else None
  }

  /** 0 for a manual row; else how many candidates beat what stands there, and one more than all when nothing does. */
  ghost function Rank(t: Table, env: Env, learned: map<string, string>, v: Visit): nat {
    var k := OccurrenceOf(v);
    if k in t && t[k].source.Manual? then 0
    else
      var c := Standing(t, env, learned, v);
      if c.None? then |CandidatesFor(env, v.item)| + 1
      else CountBetter(v.item, v.day, CandidatesFor(env, v.item), c.value)
  }

  ghost function TotalRank(t: Table, env: Env, learned: map<string, string>, visits: seq<Visit>): nat {
    if visits == [] then 0
    else TotalRank(t, env, learned, visits[..|visits| - 1]) + Rank(t, env, learned, visits[|visits| - 1])
  }

  /** A bound on the ranks that needs no table. */
  function RankBound(env: Env, visits: seq<Visit>): nat {
    if visits == [] then 0
    else RankBound(env, visits[..|visits| - 1]) + |CandidatesFor(env, visits[|visits| - 1].item)| + 1
  }

  lemma {:induction false} RanksAreBounded(t: Table, env: Env, learned: map<string, string>, visits: seq<Visit>)
    ensures TotalRank(t, env, learned, visits) <= RankBound(env, visits)
  {
    hide CandidatesFor;
    if visits != [] {
      RanksAreBounded(t, env, learned, visits[..|visits| - 1]);
    }
  }

  // ------------------------------------------------------- what a pass does

  /** Where a decision came from: the visit that made it, and the claims it was made under. */
  lemma {:induction false} DecisionComesFrom(env: Env, learned: map<string, string>, claimed: map<string, string>,
                                             visits: seq<Visit>, d: Decision)
    returns (v: Visit, at: map<string, string>)
    requires DistinctVisits(visits)
    requires d in ScanVisits(env, learned, claimed, visits).decisions
    ensures v in visits && OccurrenceOf(v) == d.occurrence
    ensures forall x :: x in claimed ==> x in at && at[x] == claimed[x]
    ensures Choice(env, learned, v, at).Some? && Choice(env, learned, v, at).value.id == d.txn
  {
    hide Choice, Holder;
    var n := |visits| - 1;
    var before := ScanVisits(env, learned, claimed, visits[..n]);
    if d in before.decisions {
      v, at := DecisionComesFrom(env, learned, claimed, visits[..n], d);
    } else {
      ScanKeepsClaims(env, learned, claimed, visits[..n]);
      v, at := visits[n], before.claimedBy;
    }
  }

  /** A row the pass rewrites goes to an admissible transaction, strictly better than one that stood. */
  lemma ChangeIsBetter(t: Table, env: Env, d: Decision) returns (v: Visit, w: Candidate)
    requires Unique(t) && Fixed(env) && d in Decisions(t, env)
    ensures v in Visits(env.items, env.today) && OccurrenceOf(v) == d.occurrence && w.id == d.txn
    ensures w in CandidatesFor(env, v.item) && FindByID(env.ledger, d.txn) == Some(w)
    ensures Admissible(v.item, v.day, w, LearnedFor(Learned(t, env), v.item.id))
    ensures var c := Standing(t, env, Learned(t, env), v);
            c.Some? && c.value.id != d.txn ==> Beats(v.item, v.day, w, c.value)
  {
    hide Admissible, Beats, CandidatesFor, Learned, Visits, Holder, ScanVisits, Best;
    VisitsAreDistinct(env.items, env.today);
    var at;
    v, at := DecisionComesFrom(env, Learned(t, env), ClaimedBy(t), Visits(env.items, env.today), d);
    w := Choice(env, Learned(t, env), v, at).value;
    ChoiceIsALedgerRow(env, Learned(t, env), v, at);
    CandidateIsFound(env, v.item, w);
    var c := Standing(t, env, Learned(t, env), v);
    if c.Some? && c.value.id != d.txn {
      StandingIsItsOwn(t, v);
      WinnerBeats(env, Learned(t, env), v, at, c.value);
    }
  }

  lemma StandingIsItsOwn(t: Table, v: Visit)
    requires Unique(t) && OccurrenceOf(v) in t && t[OccurrenceOf(v)].txn.Some?
    ensures var x := t[OccurrenceOf(v)].txn.value; x in ClaimedBy(t) && ClaimedBy(t)[x] == Holder(v.item.id, v.day)
  {
    hide Holder;
  }

  lemma WinnerBeats(env: Env, learned: map<string, string>, v: Visit, at: map<string, string>, c: Candidate)
    requires Choice(env, learned, v, at).Some? && c in CandidatesFor(env, v.item)
    requires Eligible(v.item, v.day, c, LearnedFor(learned, v.item.id), Holder(v.item.id, v.day), at)
    requires c.id != Choice(env, learned, v, at).value.id
    ensures Beats(v.item, v.day, Choice(env, learned, v, at).value, c)
  {
    hide Eligible, Beats, CandidatesFor, Holder;
  }

  lemma CandidateIsFound(env: Env, item: Item, w: Candidate)
    requires LedgerKeyed(env.ledger) && w in CandidatesFor(env, item)
    ensures FindByID(env.ledger, w.id) == Some(w)
  {
    hide FindByID, CheckingCandidates, LookbackFrom, LedgerKeyed;
    CandidatesAreCheckingRows(env, item);
    FoundIsTheRow(env.ledger, w);
  }

  lemma {:induction false} FoundIsTheRow(ledger: Ledger, w: Candidate)
    requires LedgerKeyed(ledger) && LedgerRow(w, true) in ledger
    ensures FindByID(ledger, w.id) == Some(w)
  {
    var n := |ledger| - 1;
    var i :| 0 <= i <= n && ledger[i] == LedgerRow(w, true);
    if i < n {
      assert ledger[..n][i] == LedgerRow(w, true);
      FoundIsTheRow(ledger[..n], w);
    }
  }

  /** Nothing in the window is orphaned, so a pass drops nothing. */
  ghost predicate Clean(t: Table, env: Env) {
    DropOrphans(t, env) == t
  }

  lemma OnePassCleans(t: Table, env: Env)
    requires Unique(t) && Fixed(env)
    ensures Clean(Pass(t, env).table, env)
  {
    hide InTextRange, Decisions, Held;
    PassWritesInFull(t, env);
    var kept := DropOrphans(t, env);
    var decisions := Decisions(kept, env);
    DecisionsAreHeld(kept, env);
    DecisionsAreAssignable(kept, env);
    DecidedIsExact(decisions);
  }

  lemma DecisionsAreHeld(t: Table, env: Env)
    requires Unique(t) && Fixed(env)
    ensures forall d :: d in Decisions(t, env) ==> Held(env.ledger, d.txn)
  {
    DecisionsNameLedgerRows(env, Learned(t, env), ClaimedBy(t), Visits(env.items, env.today));
  }

  lemma PassKeepsHandSettledRows(t: Table, env: Env)
    requires Unique(t) && Fixed(env) && Clean(t, env)
    ensures SameByHand(t, Pass(t, env).table)
    ensures Learned(Pass(t, env).table, env) == Learned(t, env)
  {
    hide Decisions, Learned, Decided, DropOrphans;
    PassWritesInFull(t, env);
    LearnedComesFromHandSettledRows(t, Pass(t, env).table, env);
  }

  // --------------------------------------------------------- ranks go down

  /** What a pass over a clean table leaves at an occurrence: its decision, unless the user's stands. */
  lemma RowAfterPass(t: Table, env: Env, k: Occurrence)
    requires Unique(t) && Fixed(env) && Clean(t, env)
    ensures var (u, decided) := (Pass(t, env).table, Decided(Decisions(t, env)));
            if k in decided && !(k in t && t[k].source.Manual?)
            then k in u && u[k] == Row(Some(decided[k]), Auto) && Decision(k, decided[k]) in Decisions(t, env)
            else (k in t <==> k in u) && (k in t ==> t[k] == u[k])
  {
    hide Decisions, DropOrphans, Decided, Pass;
    PassWritesInFull(t, env);
    DecisionsAreAssignable(t, env);
    DecidedIsExact(Decisions(t, env));
  }

  /** No visit's rank goes up, and one whose row changed goes down. */
  lemma RankFalls(t: Table, env: Env, v: Visit)
    requires Unique(t) && Fixed(env) && Clean(t, env) && v in Visits(env.items, env.today)
    ensures var (u, learned, k) := (Pass(t, env).table, Learned(t, env), OccurrenceOf(v));
            if (k in t <==> k in u) && (k in t ==> t[k] == u[k])
            then Rank(u, env, learned, v) == Rank(t, env, learned, v)
            else Rank(u, env, learned, v) < Rank(t, env, learned, v)
  {
    hide Decisions, Learned, CandidatesFor, Visits, Admissible, Beats, FindByID, Clean, CountBetter, Pass, Decided,
         LearnedFor;
    var decided := Decided(Decisions(t, env));
    var k := OccurrenceOf(v);
    RowAfterPass(t, env, k);
    if k in decided && !(k in t && t[k].source.Manual?) {
      var d := Decision(k, decided[k]);
      var from, w := ChangeIsBetter(t, env, d);
      SameVisit(env, v, from);
      var c := Standing(t, env, Learned(t, env), v);
      if c.Some? && c.value.id != d.txn {
        BetterCountsLess(v.item, v.day, CandidatesFor(env, v.item), w, c.value);
      }
      FoundByID(env, t, k);
    }
  }

  lemma FoundByID(env: Env, t: Table, k: Occurrence)
    ensures k in t && t[k].txn.Some? && FindByID(env.ledger, t[k].txn.value).Some? ==>
              FindByID(env.ledger, t[k].txn.value).value.id == t[k].txn.value
  {
  }

  lemma SameVisit(env: Env, v: Visit, w: Visit)
    requires DistinctItems(env.items)
    requires v in Visits(env.items, env.today) && w in Visits(env.items, env.today)
             && OccurrenceOf(v) == OccurrenceOf(w)
    ensures v == w
  {
    hide Visits;
    VisitsAreDistinct(env.items, env.today);
    var visits := Visits(env.items, env.today);
    var i :| 0 <= i < |visits| && visits[i] == v;
    var j :| 0 <= j < |visits| && visits[j] == w;
    assert i == j;
  }

  lemma {:induction false} TotalRankFalls(t: Table, env: Env, visits: seq<Visit>)
    requires Unique(t) && Fixed(env) && Clean(t, env)
    requires forall v :: v in visits ==> v in Visits(env.items, env.today)
    ensures var (u, learned) := (Pass(t, env).table, Learned(t, env));
            && TotalRank(u, env, learned, visits) <= TotalRank(t, env, learned, visits)
            && ((exists v :: v in visits && Rank(u, env, learned, v) < Rank(t, env, learned, v)) ==>
                  TotalRank(u, env, learned, visits) < TotalRank(t, env, learned, visits))
  {
    hide Learned, Visits, Rank, Pass, Clean;
    if visits != [] {
      TotalRankFalls(t, env, visits[..|visits| - 1]);
      RankFalls(t, env, visits[|visits| - 1]);
      assert visits == visits[..|visits| - 1] + [visits[|visits| - 1]];
    }
  }

  /** A pass that changes a clean table lowers its total rank. */
  lemma ChangingPassLowersRank(t: Table, env: Env)
    requires Unique(t) && Fixed(env) && Clean(t, env) && Pass(t, env).table != t
    ensures var (learned, visits) := (Learned(t, env), Visits(env.items, env.today));
            TotalRank(Pass(t, env).table, env, learned, visits) < TotalRank(t, env, learned, visits)
  {
    hide Learned, Visits, Rank, Decisions, Clean, Pass, Decided;
    var u, decided := Pass(t, env).table, Decided(Decisions(t, env));
    var k :| k in t.Keys + u.Keys && !(k in t && k in u && t[k] == u[k]);
    RowAfterPass(t, env, k);
    var v, w := ChangeIsBetter(t, env, Decision(k, decided[k]));
    RankFalls(t, env, v);
    TotalRankFalls(t, env, Visits(env.items, env.today));
  }

  // -------------------------------------------------------------- fixpoint

  /** The table after n passes over one fixed environment. */
  ghost function Passes(t: Table, env: Env, n: nat): (u: Table)
    requires Unique(t) && Fixed(env)
    ensures Unique(u)
  {
    if n == 0 then t
    else
      PassWritesInFull(Passes(t, env, n - 1), env);
      Pass(Passes(t, env, n - 1), env).table
  }

  /** From a clean table, at most as many passes change it as its total rank. */
  lemma {:induction false} SettlesWithin(t: Table, env: Env, n: nat, left: nat) returns (m: nat)
    requires Unique(t) && Fixed(env)
    requires Clean(Passes(t, env, n), env)
    requires TotalRank(Passes(t, env, n), env, Learned(Passes(t, env, n), env), Visits(env.items, env.today)) <= left
    ensures n <= m <= n + left && Passes(t, env, m + 1) == Passes(t, env, m)
    decreases left
  {
    hide Learned, Visits, TotalRank, Clean, Pass, Fixed;
    var u := Passes(t, env, n);
    if Passes(t, env, n + 1) == u {
      m := n;
    } else {
      ChangingPassLowersRank(u, env);
      OnePassCleans(u, env);
      PassKeepsHandSettledRows(u, env);
      m := SettlesWithin(t, env, n + 1, left - 1);
    }
  }

  lemma {:induction false} StaysSettled(t: Table, env: Env, m: nat, n: nat)
    requires Unique(t) && Fixed(env) && m <= n
    requires Passes(t, env, m + 1) == Passes(t, env, m)
    ensures Passes(t, env, n) == Passes(t, env, m)
  {
    hide Pass, Fixed;
    if m < n {
      StaysSettled(t, env, m, n - 1);
    }
  }

  /**
   Resolution converges: from any table the index accepts, after at most one pass more than
   the sum over the visited occurrences of their candidates plus one, no later pass changes
   anything.
   */
  lemma ResolutionConverges(t: Table, env: Env) returns (m: nat)
    requires Unique(t) && Fixed(env)
    ensures m <= 1 + RankBound(env, Visits(env.items, env.today))
    ensures forall n: nat :: n >= m ==> Passes(t, env, n) == Passes(t, env, m)
  {
    hide Learned, Visits, TotalRank, Clean, Pass, RankBound, Fixed;
    var u := Passes(t, env, 1);
    assert Passes(t, env, 0) == t;
    OnePassCleans(t, env);
    var visits := Visits(env.items, env.today);
    RanksAreBounded(u, env, Learned(u, env), visits);
    m := SettlesWithin(t, env, 1, RankBound(env, visits));
    forall n: nat | n >= m ensures Passes(t, env, n) == Passes(t, env, m) {
      StaysSettled(t, env, m, n);
    }
  }
}
