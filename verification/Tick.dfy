/**
 * One tick of the poller on the shared tables: the scan, then the sweep's settlements in the order its
 * schedule commits them, with anything that other clients commit before, between and after them.
 */
module Tick {
  import opened Tables
  import opened Ledger
  import opened Runs
  import opened Lifecycle
  import opened Sweep

  predicate HasPending(db: Db, m: MarketId) {
    exists i :: 0 <= i < |db.bets| && db.bets[i].market == m && db.bets[i].settlement.PENDING?
  }

  function ItemFor(m: MarketId, k: Market): Item { Item(m, k.source, k.deadline, k.startsAt) }

  /** The open markets with a pending bet of either mode, each once, oldest deadline first. */
  ghost predicate Scan(db: Db, items: seq<Item>) {
    && (forall i :: 0 <= i < |items| ==>
          && items[i].market in db.markets && db.markets[items[i].market].status.OPEN?
          && HasPending(db, items[i].market)
          && items[i] == ItemFor(items[i].market, db.markets[items[i].market]))
    && (forall m :: m in db.markets && db.markets[m].status.OPEN? && HasPending(db, m) ==>
          ItemFor(m, db.markets[m]) in items)
    && (forall i, j :: 0 <= i < j < |items| ==>
          items[i].market != items[j].market && items[i].deadline <= items[j].deadline)
  }

  /** The first k settlements of a sweep; gaps(j) is what others commit before settlement j. */
  function TickSteps(
      items: seq<Item>, vs: seq<(nat, Resolution)>, gaps: nat -> seq<Step>, times: nat -> int, k: nat): seq<Step>
    requires k <= |vs| && forall v :: v in vs ==> v.0 < |items|
  {
    if k == 0 then gaps(0)
    else
      TickSteps(items, vs, gaps, times, k - 1)
      + ([SettleMarket(items[vs[k - 1].0].market, vs[k - 1].1, times(k - 1))] + gaps(k))
  }

  /** Only the sweep settles. */
  ghost predicate OthersDoNotSettle(gaps: nat -> seq<Step>) {
    forall k: nat :: NoneSettles(gaps(k))
  }

  predicate NoneSettles(steps: seq<Step>) {
    forall i :: 0 <= i < |steps| ==> !steps[i].SettleMarket?
  }

  /** A step decides no market but the one it settles. */
  lemma {:induction false} StepKeepsUndecided(db: Db, s: Step, m: MarketId)
    requires NotDecided(db, m) && (s.SettleMarket? ==> s.market != m)
    ensures NotDecided(Apply(db, s), m)
  {
    hide CanBet, DueIndex, SettleBalances, SettleBets, Deletable, Referred, RowOf;
    if s.Upsert? && RowOf(db.markets, s.quote.poly, db.nextId).Some? {
      assert RowOf(db.markets, s.quote.poly, db.nextId).value in db.markets;
    }
  }

  lemma {:induction false} GapKeepsUndecided(db: Db, gap: seq<Step>, m: MarketId)
    requires NotDecided(db, m) && NoneSettles(gap)
    ensures NotDecided(Run(db, gap), m)
    decreases |gap|
  {
    hide Apply, NotDecided;
    if gap != [] {
      StepKeepsUndecided(db, gap[0], m);
      GapKeepsUndecided(Apply(db, gap[0]), gap[1..], m);
    }
  }

  lemma {:induction false} GapIsSwept(db: Db, gap: seq<Step>)
    requires NoneSettles(gap)
    ensures SweptOnly(db, gap)
    decreases |gap|
  {
    hide Apply, NotDecided;
    if gap != [] {
      GapIsSwept(Apply(db, gap[0]), gap[1..]);
    }
  }

  /** One settlement of an undecided market, and what follows it. */
  lemma {:induction false} SettlementSwept(db: Db, m: MarketId, r: Resolution, now: int, gap: seq<Step>)
    requires NotDecided(db, m) && NoneSettles(gap)
    ensures SweptOnly(db, [SettleMarket(m, r, now)] + gap)
    ensures Run(db, [SettleMarket(m, r, now)] + gap) == Run(Apply(db, SettleMarket(m, r, now)), gap)
  {
    hide Apply, NotDecided;
    var steps := [SettleMarket(m, r, now)] + gap;
    assert steps[1..] == gap;
    GapIsSwept(Apply(db, steps[0]), gap);
  }

  lemma {:induction false} SweptSoFar(
      db: Db, items: seq<Item>, vs: seq<(nat, Resolution)>, gaps: nat -> seq<Step>, times: nat -> int, k: nat)
    requires Scan(db, items) && OthersDoNotSettle(gaps) && k <= |vs|
    requires forall v :: v in vs ==> v.0 < |items|
    requires forall i, j :: 0 <= i < j < |vs| ==> vs[i].0 != vs[j].0
    ensures SweptOnly(db, TickSteps(items, vs, gaps, times, k))
    ensures forall j :: k <= j < |vs| ==>
              NotDecided(Run(db, TickSteps(items, vs, gaps, times, k)), items[vs[j].0].market)
  {
    hide Apply, Run, SweptOnly;
    if k == 0 {
      GapIsSwept(db, gaps(0));
      forall j | 0 <= j < |vs| ensures NotDecided(Run(db, gaps(0)), items[vs[j].0].market) {
        GapKeepsUndecided(db, gaps(0), items[vs[j].0].market);
      }
    } else {
      var before := TickSteps(items, vs, gaps, times, k - 1);
      var mid := Run(db, before);
      var settle := SettleMarket(items[vs[k - 1].0].market, vs[k - 1].1, times(k - 1));
      SweptSoFar(db, items, vs, gaps, times, k - 1);
      SettlementSwept(mid, settle.market, settle.resolution, settle.now, gaps(k));
      SweptConcat(db, before, [settle] + gaps(k));
      RunConcat(db, before, [settle] + gaps(k));
      forall j | k <= j < |vs| ensures NotDecided(Run(Apply(mid, settle), gaps(k)), items[vs[j].0].market) {
        assert vs[k - 1].0 != vs[j].0;
        OtherMarkets(db, items, vs[k - 1].0, vs[j].0);
        StepKeepsUndecided(mid, settle, items[vs[j].0].market);
        GapKeepsUndecided(Apply(mid, settle), gaps(k), items[vs[j].0].market);
      }
    }
  }

  lemma {:induction false} OtherMarkets(db: Db, items: seq<Item>, i: nat, j: nat)
    requires Scan(db, items) && i < |items| && j < |items| && i != j
    ensures items[i].market != items[j].market
  {}

  /**
   * Whatever the schedule, the answers and the other clients: a tick settles only markets that are
   * undecided when their settlement commits, each at most once.
   */
  lemma {:induction false} TickIsSwept(
      db: Db, items: seq<Item>, limit: int, ms: seq<Move>, gaps: nat -> seq<Step>, times: nat -> int)
    requires Scan(db, items) && OthersDoNotSettle(gaps)
    ensures var vs := Play(items, Start(items, limit), ms).verdicts;
            && (forall v :: v in vs ==> v.0 < |items|)
            && SweptOnly(db, TickSteps(items, vs, gaps, times, |vs|))
  {
    hide Play, Start, Scan, OthersDoNotSettle, TickSteps, SweptOnly, Budgeted, FewRivals;
    var p := Play(items, Start(items, limit), ms);
    StartValid(items, limit);
    ReachableValid(items, Start(items, limit), ms);
    VerdictsInRange(items, p);
    SweptSoFar(db, items, p.verdicts, gaps, times, |p.verdicts|);
  }

  /** So over a tick settled bets go on agreeing with their markets, and stranded ones stay stranded. */
  lemma {:induction false} TickKeepsBets(
      db: Db, items: seq<Item>, limit: int, ms: seq<Move>, gaps: nat -> seq<Step>, times: nat -> int)
    requires Constraints(db) && Scan(db, items) && OthersDoNotSettle(gaps)
    ensures var vs := Play(items, Start(items, limit), ms).verdicts;
            && (forall v :: v in vs ==> v.0 < |items|)
            && var steps := TickSteps(items, vs, gaps, times, |vs|);
               && (Agree(db) ==> Agree(Run(db, steps)))
               && forall i: nat :: IsStranded(db, i) ==> StaysStranded(db, steps, i)
  {
    hide Play, Start, Scan, OthersDoNotSettle, TickSteps, SweptOnly, Run, Agree, Constraints;
    TickIsSwept(db, items, limit, ms, gaps, times);
    var vs := Play(items, Start(items, limit), ms).verdicts;
    var steps := TickSteps(items, vs, gaps, times, |vs|);
    if Agree(db) {
      AgreementBySweeps(db, steps);
    }
    forall i: nat | IsStranded(db, i) ensures StaysStranded(db, steps, i) {
      StrandedForGood(db, steps, i);
    }
  }
}
