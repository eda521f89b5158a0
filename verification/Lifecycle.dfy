/** The life of a market row across all its writers: terminal for good, and never under a bet. */
module Lifecycle {
  import opened Options
  import opened Tables
  import opened Ledger
  import opened Pnl
  import opened Runs

  // ---------------------------------------------------------------- deletion

  /** Only the prune delete removes a row, and only one nothing refers to at that moment. */
  lemma {:induction false} OnlyUnreferencedRowsGo(db: Db, s: Step, m: MarketId)
    requires m in db.markets && m !in Apply(db, s).markets
    ensures s.PruneRows? && m in s.chunk && !Referred(db, m) && m !in db.metas
  {
    hide RowOf, Referred, CanBet, DueIndex, SettleBalances;
  }

  lemma {:induction false} ReferredStays(db: Db, s: Step, m: MarketId)
    requires Referred(db, m) && m in db.markets
    ensures Referred(Apply(db, s), m) && m in Apply(db, s).markets
  {
    if m !in Apply(db, s).markets {
      OnlyUnreferencedRowsGo(db, s, m);
    }
    RefsOnlyGrow(db, s, m);
  }

  lemma {:induction false} RefsOnlyGrow(db: Db, s: Step, m: MarketId)
    requires Referred(db, m)
    ensures Referred(Apply(db, s), m)
  {
    hide RowOf, CanBet, DueIndex, SettleBalances, SettleRow, Deletable;
    var out := Apply(db, s);
    BetMarketsStay(db, s);
    if i :| 0 <= i < |db.bets| && db.bets[i].market == m {
      assert out.bets[i].market == m;
    }
    assert Some(m) in db.events ==> Some(m) in out.events;
    assert m in db.attempts ==> m in out.attempts;
  }

  /** No step changes what was bet, by whom, on what and at what price, nor drops a bet. */
  lemma {:induction false} BetMarketsStay(db: Db, s: Step)
    ensures var out := Apply(db, s);
            && |db.bets| <= |out.bets|
            && forall i :: 0 <= i < |db.bets| ==>
                 && out.bets[i].market == db.bets[i].market
                 && out.bets[i].user == db.bets[i].user && out.bets[i].mode == db.bets[i].mode
                 && out.bets[i].side == db.bets[i].side && out.bets[i].stakeCents == db.bets[i].stakeCents
                 && out.bets[i].lockedPriceBp == db.bets[i].lockedPriceBp
  {
    hide RowOf, CanBet, DueIndex, SettleBalances, Deletable, Referred;
  }

  // ---------------------------------------------------------------- terminal is for good

  ghost predicate SameVerdict(a: Market, b: Market) {
    a.status == b.status && a.outcome == b.outcome && a.resolvedAt == b.resolvedAt
  }

  lemma {:induction false} StepKeepsVerdict(db: Db, s: Step, m: MarketId)
    requires Constraints(db) && m in db.markets && Decided(db.markets[m]) && m in Apply(db, s).markets
    ensures SameVerdict(Apply(db, s).markets[m], db.markets[m])
  {
    hide CanBet, DueIndex, SettleBalances, SettleBets, Deletable, Referred, RowOf;
  }

  /** A terminal market that anything refers to keeps its row, status, outcome and time for ever. */
  lemma {:induction false} TerminalForGood(db: Db, steps: seq<Step>, m: MarketId)
    requires Constraints(db) && m in db.markets && Decided(db.markets[m]) && Referred(db, m)
    ensures m in Run(db, steps).markets
    ensures SameVerdict(Run(db, steps).markets[m], db.markets[m])
    decreases |steps|
  {
    if steps != [] {
      hide Apply, Referred, Constraints;
      ReferredStays(db, steps[0], m);
      StepKeepsVerdict(db, steps[0], m);
      StepKeepsConstraints(db, steps[0]);
      TerminalForGood(Apply(db, steps[0]), steps[1..], m);
    }
  }

  /** A terminal row can be lost exactly when nothing refers to it. */
  lemma {:induction false} TerminalLostIff(db: Db, m: MarketId)
    requires Constraints(db) && m in db.markets && Decided(db.markets[m])
    ensures (exists steps :: m !in Run(db, steps).markets) <==> !Referred(db, m)
  {
    hide Run;
    if Referred(db, m) {
      forall steps: seq<Step> ensures m in Run(db, steps).markets {
        TerminalForGood(db, steps, m);
      }
    } else {
      PrunedAway(db, m);
    }
  }

  lemma {:induction false} PrunedAway(db: Db, m: MarketId)
    requires m in db.markets && !Referred(db, m)
    ensures m !in Run(db, [PruneMetas({m}), PruneRows({m})]).markets
  {
    hide Apply;
    var steps := [PruneMetas({m}), PruneRows({m})];
    var mid := Apply(db, steps[0]);
    assert steps[1..] == [PruneRows({m})] && steps[1..][1..] == [];
    assert Run(db, steps) == Run(mid, [PruneRows({m})]) == Apply(mid, PruneRows({m}));
    TwoDeletes(db, m);
  }

  lemma {:induction false} TwoDeletes(db: Db, m: MarketId)
    requires m in db.markets && !Referred(db, m)
    ensures m !in Apply(Apply(db, PruneMetas({m})), PruneRows({m})).markets
  {
    var mid := Apply(db, PruneMetas({m}));
    assert !Referred(mid, m);
    assert m in Deletable(mid, {m});
  }

  // ---------------------------------------------------------------- bets and terminal markets

  /** A pending paper bet on a market that is already decided. */
  predicate IsStranded(db: Db, i: nat) {
    && i < |db.bets| && db.bets[i].mode.PAPER? && db.bets[i].settlement.PENDING?
    && db.bets[i].market in db.markets && Decided(db.markets[db.bets[i].market])
  }

  ghost predicate NoStranded(db: Db) {
    forall i :: 0 <= i < |db.bets| ==> !IsStranded(db, i)
  }

  /** Every settled paper bet was settled the way its market says it ended, and says so itself. */
  ghost predicate Agree(db: Db) {
    forall i :: 0 <= i < |db.bets| && db.bets[i].mode.PAPER? ==> AgreesWith(db.bets[i], db.markets)
  }

  /**
   * A settled bet's own numbers: a win pays the stake over the price the bet itself was locked at, to
   * half a unit of that price; a loss costs the stake.
   */
  predicate PaidAtItsPrice(b: Bet) {
    && b.payoutCents.Some? && b.pnlCents.Some?
    && b.payoutCents.value == b.pnlCents.value + b.stakeCents
    && (b.result.LOSS? ==> b.payoutCents.value == 0 && b.pnlCents.value == -b.stakeCents)
    && (b.result.WIN? ==>
          var p := if b.lockedPriceBp < 1 then 1 else if b.lockedPriceBp > 9999 then 9999 else b.lockedPriceBp;
          -p < 2 * (p * b.payoutCents.value - 10_000 * b.stakeCents) <= p)
  }

  /** Settling a bet pays it at its own locked price and touches neither side, stake nor price. */
  lemma {:induction false} SettledAtItsPrice(b: Bet, yes: bool)
    ensures var out := SettleRow(b, Resolved(yes));
            && PaidAtItsPrice(out)
            && out.user == b.user && out.market == b.market && out.mode == b.mode
            && out.side == b.side && out.stakeCents == b.stakeCents && out.lockedPriceBp == b.lockedPriceBp
  {
    var w := ComputePnl(b.side, b.stakeCents, b.lockedPriceBp, yes);
    if w.won {
      FairOdds(b.side, b.stakeCents, b.lockedPriceBp, yes);
    }
  }

  ghost predicate AgreesWith(b: Bet, markets: map<MarketId, Market>) {
    match b.settlement
    case PENDING => b.result.Undecided? && b.payoutCents.None? && b.pnlCents.None?
    case SETTLED =>
      && b.market in markets && markets[b.market].status.RESOLVED? && b.resolvedYes.Some?
      && markets[b.market].outcome == Some(if b.resolvedYes.value then OutcomeYes else OutcomeNo)
      && b.result == (if b.side.BuyYes? == b.resolvedYes.value then WIN else LOSS)
      && PaidAtItsPrice(b)
    case VOID =>
      && b.market in markets && markets[b.market].status.CANCELED?
      && markets[b.market].outcome == Some(OutcomeInvalid)
      && b.result.PUSH? && b.payoutCents == Some(0) && b.pnlCents == Some(0)
  }

  /** recordSwipe commits without looking at the market's status; this is when that matters. */
  predicate LateSwipe(db: Db, s: Step) {
    && s.Swipe?
    && CanBet(db, s.user, s.market, PAPER) && CanHold(db, s.user, STAKE_CENTS)
    && Decided(db.markets[s.market])
  }

  lemma {:induction false} LateSwipeStrands(db: Db, s: Step)
    requires LateSwipe(db, s)
    ensures !NoStranded(Apply(db, s))
  {
    var out := Apply(db, s);
    assert IsStranded(out, |db.bets|);
  }

  /** A settlement whose market is not decided yet: the only kind a sweep commits. */
  predicate NotDecided(db: Db, m: MarketId) { m in db.markets ==> !Decided(db.markets[m]) }

  /** Late swipe or not, a step that settles no decided market keeps every bet agreeing with its market. */
  lemma {:induction false} StepKeepsAgree(db: Db, s: Step)
    requires Constraints(db) && Agree(db) && (s.SettleMarket? ==> NotDecided(db, s.market))
    ensures Agree(Apply(db, s))
  {
    hide Constraints, AgreesWith, Apply;
    var out := Apply(db, s);
    forall i | 0 <= i < |out.bets| && out.bets[i].mode.PAPER? ensures AgreesWith(out.bets[i], out.markets) {
      if i < |db.bets| {
        BetMarketsStay(db, s);
        assert AgreesWith(db.bets[i], db.markets);
        if s.SettleMarket? && !s.resolution.Unresolved? && db.bets[i].market == s.market {
          SettledAgrees(db, s.market, s.resolution, s.now, i);
        } else {
          OtherBetAgrees(db, s, i);
        }
      } else {
        NewBetAgrees(db, s, i);
      }
    }
  }

  lemma {:induction false} SettledAgrees(db: Db, m: MarketId, r: Resolution, now: int, i: nat)
    requires Constraints(db) && NotDecided(db, m) && !r.Unresolved?
    requires i < |db.bets| && db.bets[i].mode.PAPER? && db.bets[i].market == m && AgreesWith(db.bets[i], db.markets)
    ensures i < |Apply(db, SettleMarket(m, r, now)).bets|
    ensures AgreesWith(Apply(db, SettleMarket(m, r, now)).bets[i], Apply(db, SettleMarket(m, r, now)).markets)
  {
    hide DueIndex, SettleBalances, PaidAtItsPrice;
    assert db.bets[i].settlement.PENDING?;
    if r.Resolved? {
      SettledAtItsPrice(db.bets[i], r.yes);
    }
  }

  lemma {:induction false} OtherBetAgrees(db: Db, s: Step, i: nat)
    requires Constraints(db) && i < |db.bets| && db.bets[i].mode.PAPER? && AgreesWith(db.bets[i], db.markets)
    requires s.SettleMarket? && !s.resolution.Unresolved? ==> s.market != db.bets[i].market
    ensures i < |Apply(db, s).bets| && AgreesWith(Apply(db, s).bets[i], Apply(db, s).markets)
  {
    hide Apply, Constraints;
    var m := db.bets[i].market;
    BetHasMarket(db, i);
    ReferredStays(db, s, m);
    OtherBetsStay(db, s, i);
    if Decided(db.markets[m]) {
      StepKeepsVerdict(db, s, m);
    }
  }

  lemma {:induction false} BetHasMarket(db: Db, i: nat)
    requires Constraints(db) && i < |db.bets|
    ensures db.bets[i].market in db.markets && Referred(db, db.bets[i].market)
  {}

  lemma {:induction false} NewBetAgrees(db: Db, s: Step, i: nat)
    requires |db.bets| <= i < |Apply(db, s).bets|
    ensures AgreesWith(Apply(db, s).bets[i], Apply(db, s).markets)
  {
    hide CanBet, DueIndex, SettleBalances, SettleRow, Deletable, Referred, RowOf;
  }

  lemma {:induction false} StepKeepsAgreement(db: Db, s: Step)
    requires Constraints(db) && NoStranded(db) && !LateSwipe(db, s)
    ensures NoStranded(Apply(db, s))
    ensures Agree(db) ==> Agree(Apply(db, s))
  {
    hide NoStranded, Agree, LateSwipe, Constraints, Settle;
    if s.SettleMarket? {
      SettleKeepsAgreement(db, s.market, s.resolution, s.now);
    } else {
      StepStrandsNone(db, s);
      if Agree(db) {
        StepKeepsAgree(db, s);
      }
    }
  }

  lemma {:induction false} StepStrandsNone(db: Db, s: Step)
    requires Constraints(db) && NoStranded(db) && !LateSwipe(db, s) && !s.SettleMarket?
    ensures NoStranded(Apply(db, s))
  {
    hide CanBet, DueIndex, SettleBalances, Deletable, Referred, RowOf;
    match s
    case PruneRows(chunk) => PruneStrandsNone(db, chunk);
    case Upsert(q) => UpsertStrandsNone(db, q);
    case _ => OtherStrandsNone(db, s);
  }

  lemma {:induction false} OtherStrandsNone(db: Db, s: Step)
    requires Constraints(db) && NoStranded(db) && !LateSwipe(db, s)
    requires !s.SettleMarket? && !s.PruneRows? && !s.Upsert?
    ensures NoStranded(Apply(db, s))
  {
    hide DueIndex, SettleBalances, Deletable, Referred, RowOf;
    var out := Apply(db, s);
    forall i | 0 <= i < |out.bets| ensures !IsStranded(out, i) {
      assert i < |db.bets| ==> !IsStranded(db, i);
    }
  }

  lemma {:induction false} UpsertStrandsNone(db: Db, q: Quote)
    requires Constraints(db) && NoStranded(db)
    ensures NoStranded(UpsertMarket(db, q))
  {
    hide RowOf;
    var out := UpsertMarket(db, q);
    assert forall m :: m in db.markets ==> m != db.nextId;
    assert forall m :: m in db.markets ==> m in out.markets && SameVerdict(out.markets[m], db.markets[m]);
    forall i | 0 <= i < |out.bets| ensures !IsStranded(out, i) {
      assert i < |db.bets| ==> !IsStranded(db, i);
    }
  }

  lemma {:induction false} SettleKeepsAgreement(db: Db, m: MarketId, r: Resolution, now: int)
    requires Constraints(db) && NoStranded(db)
    ensures NoStranded(Settle(db, m, r, now))
    ensures Agree(db) ==> Agree(Settle(db, m, r, now))
  {
    hide DueIndex, SettleBalances, PaidAtItsPrice;
    var out := Settle(db, m, r, now);
    if !r.Unresolved? {
      NothingLeftDue(db.bets, m, r, m);
      forall i | 0 <= i < |out.bets| ensures !IsStranded(out, i) {
        assert !IsStranded(db, i);
      }
      forall i | 0 <= i < |out.bets| && out.bets[i].mode.PAPER? && Agree(db)
        ensures AgreesWith(out.bets[i], out.markets)
      {
        assert AgreesWith(db.bets[i], db.markets);
        assert !IsStranded(db, i);
        if r.Resolved? {
          SettledAtItsPrice(db.bets[i], r.yes);
        }
      }
    }
  }

  lemma {:induction false} PruneStrandsNone(db: Db, chunk: set<MarketId>)
    requires Constraints(db) && NoStranded(db)
    ensures NoStranded(Apply(db, PruneRows(chunk)))
  {
    hide Referred;
    var out := Apply(db, PruneRows(chunk));
    forall i | 0 <= i < |out.bets| ensures !IsStranded(out, i) {
      assert i < |db.bets| ==> !IsStranded(db, i);
    }
  }

  ghost predicate ClearThroughout(db: Db, steps: seq<Step>)
    decreases |steps|
  {
    NoStranded(db) && (steps != [] ==> ClearThroughout(Apply(db, steps[0]), steps[1..]))
  }

  /** Each swipe of the run finds its market undecided: what a check inside the write would ensure. */
  predicate NeverLate(db: Db, steps: seq<Step>)
    decreases |steps|
  {
    steps == [] || (!LateSwipe(db, steps[0]) && NeverLate(Apply(db, steps[0]), steps[1..]))
  }

  /** No paper bet is ever stranded during a run exactly when no swipe of the run comes late. */
  lemma {:induction false} StrandedIffLate(db: Db, steps: seq<Step>)
    requires Constraints(db) && NoStranded(db)
    ensures ClearThroughout(db, steps) <==> NeverLate(db, steps)
    decreases |steps|
  {
    if steps != [] {
      hide Apply, Constraints, NoStranded, LateSwipe;
      var next := Apply(db, steps[0]);
      StepKeepsConstraints(db, steps[0]);
      if LateSwipe(db, steps[0]) {
        LateSwipeStrands(db, steps[0]);
      } else {
        StepKeepsAgreement(db, steps[0]);
        StrandedIffLate(next, steps[1..]);
      }
    }
  }

  /** And then every settled bet agrees with its market, whatever is settled again later. */
  lemma {:induction false} AgreementOverRuns(db: Db, steps: seq<Step>)
    requires Constraints(db) && NoStranded(db) && Agree(db) && NeverLate(db, steps)
    ensures Agree(Run(db, steps)) && NoStranded(Run(db, steps))
    decreases |steps|
  {
    if steps != [] {
      hide Apply, Constraints, NoStranded, Agree, LateSwipe;
      StepKeepsConstraints(db, steps[0]);
      StepKeepsAgreement(db, steps[0]);
      AgreementOverRuns(Apply(db, steps[0]), steps[1..]);
    }
  }

  // ---------------------------------------------------------------- what a late swipe costs

  /** No step of the run settles a market that is decided by then. */
  predicate SweptOnly(db: Db, steps: seq<Step>)
    decreases |steps|
  {
    steps == [] ||
    ((steps[0].SettleMarket? ==> NotDecided(db, steps[0].market)) && SweptOnly(Apply(db, steps[0]), steps[1..]))
  }

  lemma {:induction false} SweptConcat(db: Db, a: seq<Step>, b: seq<Step>)
    ensures SweptOnly(db, a + b) <==> SweptOnly(db, a) && SweptOnly(Run(db, a), b)
    decreases |a|
  {
    hide Apply;
    if a == [] {
      assert a + b == b;
    } else {
      assert (a + b)[1..] == a[1..] + b;
      SweptConcat(Apply(db, a[0]), a[1..], b);
    }
  }

  /**
   * As long as only sweeps settle, every settled bet agrees with its market over every run, late
   * swipes included: those stay pending, and nothing is ever settled against the market's outcome.
   */
  lemma {:induction false} AgreementBySweeps(db: Db, steps: seq<Step>)
    requires Constraints(db) && Agree(db) && SweptOnly(db, steps)
    ensures Agree(Run(db, steps))
    decreases |steps|
  {
    if steps != [] {
      hide Apply, Constraints, Agree;
      StepKeepsConstraints(db, steps[0]);
      StepKeepsAgree(db, steps[0]);
      AgreementBySweeps(Apply(db, steps[0]), steps[1..]);
    }
  }

  lemma {:induction false} StrandedStep(db: Db, s: Step, i: nat)
    requires Constraints(db) && IsStranded(db, i)
    requires s.SettleMarket? ==> NotDecided(db, s.market)
    ensures IsStranded(Apply(db, s), i) && Apply(db, s).bets[i] == db.bets[i]
  {
    hide Apply, Constraints;
    var m := db.bets[i].market;
    assert Referred(db, m);
    ReferredStays(db, s, m);
    StepKeepsVerdict(db, s, m);
    OtherBetsStay(db, s, i);
  }

  /** A paper bet's row changes only when its own market is settled. */
  lemma {:induction false} OtherBetsStay(db: Db, s: Step, i: nat)
    requires i < |db.bets| && db.bets[i].mode.PAPER?
    requires s.SettleMarket? && !s.resolution.Unresolved? ==> s.market != db.bets[i].market
    ensures i < |Apply(db, s).bets| && Apply(db, s).bets[i] == db.bets[i]
  {
    hide CanBet, DueIndex, SettleBalances, SettleRow, Deletable, Referred, RowOf;
  }

  /** A stranded bet stays pending under every later sweep: its stake is held for ever. */
  lemma {:induction false} StrandedForGood(db: Db, steps: seq<Step>, i: nat)
    requires Constraints(db) && IsStranded(db, i) && SweptOnly(db, steps)
    ensures IsStranded(Run(db, steps), i) && Run(db, steps).bets[i] == db.bets[i]
    decreases |steps|
  {
    if steps != [] {
      hide Apply, Constraints, IsStranded;
      assert i < |db.bets| by {
        InRange(db, i);
      }
      StrandedStep(db, steps[0], i);
      StepKeepsConstraints(db, steps[0]);
      InRange(Apply(db, steps[0]), i);
      StrandedForGood(Apply(db, steps[0]), steps[1..], i);
    }
  }

  lemma {:induction false} InRange(db: Db, i: nat)
    requires IsStranded(db, i)
    ensures i < |db.bets|
  {}

  predicate StaysStranded(db: Db, more: seq<Step>, i: nat) {
    IsStranded(db, i) && IsStranded(Run(db, more), i) && Run(db, more).bets[i] == db.bets[i]
  }

  /** The two steps leave the swipe's new bet stranded, through everything that may follow. */
  ghost predicate StrandsForGood(db: Db, settle: Step, swipe: Step)
    requires swipe.Swipe?
  {
    var done := Run(db, [settle, swipe]);
    var i := |db.bets|;
    && IsStranded(done, i) && done.bets[i].user == swipe.user
    && forall more: seq<Step> :: SweptOnly(done, more) ==> StaysStranded(done, more, i)
  }

  /**
   * The window between the route's check and the swipe's transaction, in any state: u may bet on the
   * undecided m and has the cash; the sweep settles m; the swipe commits; its stake is never released.
   */
  lemma {:induction false} LateSwipeWindow(db: Db, m: MarketId, u: UserId, r: Resolution, now: int, side: Side, p: int)
    requires Constraints(db) && CanBet(db, u, m, PAPER) && CanHold(db, u, STAKE_CENTS)
    requires NotDecided(db, m) && !r.Unresolved?
    ensures SweptOnly(db, [SettleMarket(m, r, now), Swipe(u, m, side, p)])
    ensures StrandsForGood(db, SettleMarket(m, r, now), Swipe(u, m, side, p))
  {
    hide Apply, Constraints, CanBet;
    var settle, swipe := SettleMarket(m, r, now), Swipe(u, m, side, p);
    var mid := Apply(db, settle);
    var done := Apply(mid, swipe);
    assert [settle, swipe][1..] == [swipe] && [swipe][1..] == [];
    assert Run(db, [settle, swipe]) == Run(mid, [swipe]) == Run(done, []) == done;
    assert SweptOnly(done, []) && SweptOnly(mid, [swipe]);
    StillAbleToBet(db, m, u, r, now);
    LateSwipeAdds(mid, swipe);
    SettleConstraints(db, m, r, now);
    StepKeepsConstraints(db, settle);
    StepKeepsConstraints(mid, swipe);
    forall more: seq<Step> | SweptOnly(done, more) ensures StaysStranded(done, more, |db.bets|) {
      StrandedForGood(done, more, |db.bets|);
    }
  }

  lemma {:induction false} StillAbleToBet(db: Db, m: MarketId, u: UserId, r: Resolution, now: int)
    requires CanBet(db, u, m, PAPER) && CanHold(db, u, STAKE_CENTS) && NotDecided(db, m) && !r.Unresolved?
    ensures var mid := Apply(db, SettleMarket(m, r, now));
            && CanBet(mid, u, m, PAPER) && CanHold(mid, u, STAKE_CENTS)
            && Decided(mid.markets[m]) && |mid.bets| == |db.bets|
  {
    hide DueIndex;
    assert DueIndex(db.bets, m, u).None?;
  }

  lemma {:induction false} LateSwipeAdds(db: Db, s: Step)
    requires LateSwipe(db, s)
    ensures var out := Apply(db, s); IsStranded(out, |db.bets|) && out.bets[|db.bets|].user == s.user
  {}

  /**
   * And it is reached from an empty database: the market is open and far from its deadline, another
   * user's pending bet keeps it in the sweep's scan, and the sweep gets there first.
   */
  lemma {:induction false} LateSwipeHappens() returns (before: seq<Step>, settle: Step, swipe: Step)
    ensures settle.SettleMarket? && swipe.Swipe? && settle.market == swipe.market
    ensures var db := Run(Empty(), before);
            && swipe.market in db.markets && db.markets[swipe.market].status.OPEN?
            && db.markets[swipe.market].deadline > settle.now + DECK_MIN_LEAD_MS
            && (exists i :: 0 <= i < |db.bets| && db.bets[i].market == swipe.market
                            && db.bets[i].settlement.PENDING? && db.bets[i].user != swipe.user)
            && StrandsForGood(db, settle, swipe)
    ensures SweptOnly(Empty(), before + [settle, swipe])
  {
    hide StrandsForGood, Apply, Constraints, NotDecided;
    var q := Quote(7, 1_000_000, None, StampBook(0));
    before := [Provision(0), Provision(1), Upsert(q), Swipe(1, 0, BuyYes, 5000)];
    settle, swipe := SettleMarket(0, Resolved(true), 0), Swipe(0, 0, BuyYes, 5000);
    FourSteps(Empty(), before[0], before[1], before[2], before[3]);
    OneBetPlaced(q);
    var db := Run(Empty(), before);
    assert db.bets[0].user == 1;
    LateSwipeWindow(db, 0, 0, Resolved(true), 0, BuyYes, 5000);
    SweptConcat(Empty(), before, [settle, swipe]);
  }

  lemma {:induction false} OneBetPlaced(q: Quote)
    requires q == Quote(7, 1_000_000, None, StampBook(0))
    ensures var db := Apply(Apply(Apply(Apply(Empty(), Provision(0)), Provision(1)), Upsert(q)),
                            Swipe(1, 0, BuyYes, 5000));
            && Constraints(db) && CanBet(db, 0, 0, PAPER) && CanHold(db, 0, STAKE_CENTS) && NotDecided(db, 0)
            && 0 in db.markets && db.markets[0].status.OPEN? && db.markets[0].deadline == 1_000_000
            && db.bets == [NewBet(1, 0, PAPER, BuyYes, STAKE_CENTS, 5000)]
  {
    var d2 := Apply(Apply(Empty(), Provision(0)), Provision(1));
    var d3 := Apply(d2, Upsert(q));
    assert RowOf(d2.markets, 7, 0) == None;
    assert d3.markets == map[0 := Market(7, POLYMARKET, OPEN, None, None, 1_000_000, None, StampBook(0))];
  }

  lemma {:induction false} FourSteps(db: Db, a: Step, b: Step, c: Step, d: Step)
    requires !a.SettleMarket? && !b.SettleMarket? && !c.SettleMarket? && !d.SettleMarket?
    ensures Run(db, [a, b, c, d]) == Apply(Apply(Apply(Apply(db, a), b), c), d)
    ensures SweptOnly(db, [a, b, c, d])
  {
    hide Apply;
    var d1 := Apply(db, a);
    var d2 := Apply(d1, b);
    var d3 := Apply(d2, c);
    var d4 := Apply(d3, d);
    assert [a, b, c, d][1..] == [b, c, d] && [b, c, d][1..] == [c, d] && [c, d][1..] == [d] && [d][1..] == [];
    assert Run(d3, [d]) == Run(d4, []) == d4;
    assert Run(d2, [c, d]) == Run(d3, [d]);
    assert Run(d1, [b, c, d]) == Run(d2, [c, d]);
    assert SweptOnly(d4, []);
    assert SweptOnly(d3, [d]);
    assert SweptOnly(d2, [c, d]);
    assert SweptOnly(d1, [b, c, d]);
  }

  // ---------------------------------------------------------------- a deadline moved under a prune

  /** What the prune's select and only the select asks for. */
  predicate Prunable(db: Db, m: MarketId, cutoff: int) {
    m in db.markets && db.markets[m].deadline < cutoff && !Referred(db, m)
  }

  /** Every row the delete takes was past the cutoff when it was deleted. */
  ghost predicate OnlyExpiredGo(db: Db, chunk: set<MarketId>, cutoff: int) {
    forall m :: m in db.markets && m !in Apply(db, PruneRows(chunk)).markets ==> db.markets[m].deadline < cutoff
  }

  /** It does happen: selected while expired, refreshed with a later deadline, deleted all the same. */
  lemma {:induction false} PostponedMarketDeleted()
    ensures exists db: Db, m: MarketId, q: Quote, cutoff: int ::
              && Constraints(db) && Prunable(db, m, cutoff)
              && var mid := Apply(db, Upsert(q));
                 && m in mid.markets && mid.markets[m].deadline >= cutoff
                 && m !in Apply(mid, PruneRows({m})).markets
  {
    var book := StampBook(0);
    var row := Market(7, POLYMARKET, OPEN, None, None, 10, None, book);
    var db := Db(map[0 := row], [], map[], [], map[], [], [], 1);
    var q := Quote(7, 500, None, book);
    var mid := Apply(db, Upsert(q));
    assert RowOf(db.markets, 7, 1) == Some(0);
    assert mid.markets[0].deadline == 500;
    assert 0 in Deletable(mid, {0});
    assert Prunable(db, 0, 100);
  }
}
