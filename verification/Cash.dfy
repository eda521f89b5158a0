/** Cash and Locked: what every run keeps true of balances, holds and profits. */
module Cash {
  import opened Options
  import opened Pnl
  import opened Tables
  import opened Ledger
  import opened Sums
  import opened Runs

  function PendingStake(u: UserId): Bet -> int {
    (b: Bet) => if b.user == u && b.mode.PAPER? && b.settlement.PENDING? then b.stakeCents else 0
  }

  function OpenCost(u: UserId): Lot -> int {
    (l: Lot) => if l.user == u && l.proceedsCents.None? then l.costCents else 0
  }

  function BetPnl(u: UserId): Bet -> int {
    (b: Bet) => if b.user == u && b.mode.PAPER? && b.settlement.SETTLED? && b.pnlCents.Some?
                then b.pnlCents.value else 0
  }

  function LotPnl(u: UserId): Lot -> int {
    (l: Lot) => if l.user == u && l.proceedsCents.Some? then l.proceedsCents.value - l.costCents else 0
  }

  /** All that holds u's cash: pending paper stakes and open paper lots. */
  function Held(db: Db, u: UserId): int {
    Sum(db.bets, PendingStake(u)) + Sum(db.lots, OpenCost(u))
  }

  /** All that u's paper trading has earned so far. */
  function Earned(db: Db, u: UserId): int {
    Sum(db.bets, BetPnl(u)) + Sum(db.lots, LotPnl(u))
  }

  ghost predicate RowsPresent(db: Db) {
    && (forall i :: 0 <= i < |db.bets| && db.bets[i].mode.PAPER? ==>
          db.bets[i].user in db.balances && db.bets[i].stakeCents > 0)
    && (forall i :: 0 <= i < |db.lots| ==> db.lots[i].user in db.balances && db.lots[i].costCents > 0)
  }

  ghost predicate HoldsMatch(db: Db) {
    forall u :: u in db.balances ==> Covered(db, u)
  }

  ghost predicate Inv(db: Db) { Constraints(db) && RowsPresent(db) && HoldsMatch(db) }

  // ---------------------------------------------------------------- one step

  /** Money that enters from outside: the opening balance and top-ups. */
  function Credit(db: Db, s: Step, u: UserId): int {
    match s
    case Provision(v) => if u == v && u !in db.balances then 20_000 else 0
    case TopUp(v) =>
      if u != v then 0
      else (if u in db.balances then 0 else 20_000) + 20_000
    case _ => 0
  }

  function Total(db: Db, u: UserId): int { if u in db.balances then db.balances[u].balanceCents else 0 }

  lemma {:induction false} NoRowNothingHeld(db: Db, u: UserId)
    requires RowsPresent(db) && u !in db.balances
    ensures Held(db, u) == 0 && Earned(db, u) == 0
  {
    SumZero(db.bets, PendingStake(u));
    SumZero(db.bets, BetPnl(u));
    SumZero(db.lots, OpenCost(u));
    SumZero(db.lots, LotPnl(u));
  }

  lemma {:induction false} SumZero<T>(xs: seq<T>, f: T -> int)
    requires forall j :: 0 <= j < |xs| ==> f(xs[j]) == 0
    ensures Sum(xs, f) == 0
  {
    if xs != [] {
      SumZero(xs[..|xs| - 1], f);
    }
  }

  lemma {:induction false} HeldNonneg(db: Db, u: UserId)
    requires RowsPresent(db)
    ensures Held(db, u) >= 0
  {
    SumNonneg(db.bets, PendingStake(u));
    SumNonneg(db.lots, OpenCost(u));
  }

  ghost predicate Covered(db: Db, u: UserId)
    requires u in db.balances
  {
    db.balances[u].lockedCents == Held(db, u) && Held(db, u) <= db.balances[u].balanceCents
  }

  /** What a step does to one user's hold, profit and balance, step by step. */
  ghost predicate Moves(db: Db, out: Db, u: UserId, credit: int) {
    && (u in db.balances ==> u in out.balances)
    && (u in out.balances ==>
          && Total(out, u) - Earned(out, u) == Total(db, u) - Earned(db, u) + credit
          && out.balances[u].lockedCents - Held(out, u) ==
             (if u in db.balances then db.balances[u].lockedCents - Held(db, u) else 0)
          && ((u in db.balances ==> Covered(db, u)) ==> Held(out, u) <= Total(out, u)))
  }

  lemma {:induction false} SettleMoves(db: Db, m: MarketId, r: Resolution, now: int, u: UserId)
    requires Constraints(db) && RowsPresent(db)
    ensures Moves(db, Settle(db, m, r, now), u, 0)
  {
    hide DueIndex, SettleBalances, Sum, ComputePnl;
    var out := Settle(db, m, r, now);
    var k := Books(db.bets, db.balances);
    if r.Unresolved? {
    } else if u !in db.balances {
      SettleProvisioned(k, m, r);
    } else {
      BalanceAfter(k, m, r, u);
      match DueIndex(db.bets, m, u)
      case None =>
        SumSame(db.bets, out.bets, PendingStake(u));
        SumSame(db.bets, out.bets, BetPnl(u));
      case Some(i) =>
        SettledSums(db.bets, m, r, u, i);
        PnlAtLeastStake(db.bets[i], r);
    }
  }

  /** Settling moves one stake of u out of the pending ones, and its gain into the profits. */
  lemma {:induction false} SettledSums(bets: seq<Bet>, m: MarketId, r: Resolution, u: UserId, i: nat)
    requires OneBetEach(bets) && !r.Unresolved? && DueIndex(bets, m, u) == Some(i)
    ensures var out := SettleBets(bets, m, r);
            && Sum(out, PendingStake(u)) == Sum(bets, PendingStake(u)) - bets[i].stakeCents
            && Sum(out, BetPnl(u)) == Sum(bets, BetPnl(u)) + Gain(bets[i], r)
  {
    hide DueIndex, Sum, ComputePnl;
    var out := SettleBets(bets, m, r);
    forall j | 0 <= j < |bets| && j != i
      ensures PendingStake(u)(bets[j]) == PendingStake(u)(out[j])
      ensures BetPnl(u)(bets[j]) == BetPnl(u)(out[j])
    {
      if Due(bets[j], m) && bets[j].user == u {
        DueIndexUnique(bets, m, u, j);
      }
    }
    SumChange(bets, out, i, PendingStake(u));
    SumChange(bets, out, i, BetPnl(u));
  }

  lemma {:induction false} PnlAtLeastStake(b: Bet, r: Resolution)
    requires b.stakeCents > 0
    ensures Gain(b, r) >= -b.stakeCents
  {
    hide RoundHalfUp;
    match r
    case Resolved(yes) => PnlOfPayout(b.side, b.stakeCents, b.lockedPriceBp, yes);
    case _ =>
  }

  lemma {:induction false} PlaceBetMoves(
      db: Db, v: UserId, m: MarketId, side: Side, stake: int, p: int, u: UserId)
    requires stake > 0 && CanHold(db, v, stake)
    ensures Moves(db, PlaceBet(db, v, m, side, stake, p), u, 0)
  {
    hide Sum;
    var b := NewBet(v, m, PAPER, side, stake, p);
    SumAppend(db.bets, b, PendingStake(u));
    SumAppend(db.bets, b, BetPnl(u));
  }

  lemma {:induction false} BuyLotMoves(db: Db, v: UserId, cost: int, u: UserId)
    ensures Moves(db, Apply(db, BuyLot(v, cost)), u, 0)
  {
    hide Sum, Settle, RowOf, Referred, CanBet, Deletable;
    SumAppend(db.lots, Lot(v, cost, None), OpenCost(u));
    SumAppend(db.lots, Lot(v, cost, None), LotPnl(u));
  }

  lemma {:induction false} SellLotMoves(db: Db, i: nat, proceeds: nat, u: UserId)
    ensures Moves(db, Apply(db, SellLot(i, proceeds)), u, 0)
  {
    hide Sum, Settle, RowOf, Referred, CanBet, Deletable;
    var out := Apply(db, SellLot(i, proceeds));
    if out.lots != db.lots {
      SumChange(db.lots, out.lots, i, OpenCost(u));
      SumChange(db.lots, out.lots, i, LotPnl(u));
    }
  }

  lemma {:induction false} RealMoves(db: Db, s: Step, u: UserId)
    requires s.RealFill? || s.RealSettle?
    ensures Moves(db, Apply(db, s), u, 0)
  {
    hide Sum, Settle, RowOf, Referred, CanBet, Deletable;
    var out := Apply(db, s);
    if |out.bets| > |db.bets| {
      SumAppend(db.bets, out.bets[|db.bets|], PendingStake(u));
      SumAppend(db.bets, out.bets[|db.bets|], BetPnl(u));
    } else {
      SumSame(db.bets, out.bets, PendingStake(u));
      SumSame(db.bets, out.bets, BetPnl(u));
    }
  }

  lemma {:induction false} CreditMoves(db: Db, s: Step, u: UserId)
    requires RowsPresent(db) && (s.Provision? || s.TopUp?)
    ensures Moves(db, Apply(db, s), u, Credit(db, s, u))
  {
    if u !in db.balances {
      NoRowNothingHeld(db, u);
    }
  }

  /** A step changes balance minus profit by its credit, and balance, hold and stakes in step. */
  lemma {:induction false} StepMoves(db: Db, s: Step, u: UserId)
    requires Constraints(db) && RowsPresent(db)
    ensures Moves(db, Apply(db, s), u, Credit(db, s, u))
  {
    hide Moves, Settle, CanBet, Referred, RowOf, Constraints;
    match s
    case Provision(_) => CreditMoves(db, s, u);
    case TopUp(_) => CreditMoves(db, s, u);
    case Swipe(v, m, side, p) =>
      if CanBet(db, v, m, PAPER) && CanHold(db, v, STAKE_CENTS) {
        PlaceBetMoves(db, v, m, side, STAKE_CENTS, p, u);
      } else {
        NoMoves(db, db, u);
      }
    case Accept(v, m, side, p, quoted, now) =>
      AcceptMoves(db, s, u);
    case BuyLot(v, cost) => BuyLotMoves(db, v, cost, u);
    case SellLot(i, proceeds) => SellLotMoves(db, i, proceeds, u);
    case RealFill(_, _, _, _, _) => RealMoves(db, s, u);
    case RealSettle(_, _) => RealMoves(db, s, u);
    case SettleMarket(m, r, now) => SettleMoves(db, m, r, now, u);
    case _ => NoMoves(db, Apply(db, s), u);
  }

  lemma {:induction false} NoMoves(db: Db, out: Db, u: UserId)
    requires out.bets == db.bets && out.lots == db.lots && out.balances == db.balances
    ensures Moves(db, out, u, 0)
  {}

  lemma {:induction false} AcceptMoves(db: Db, s: Step, u: UserId)
    requires s.Accept?
    ensures Moves(db, Apply(db, s), u, 0)
  {
    hide CanBet, Moves, Settle, RowOf, Referred, Deletable;
    match AcceptStake(db, s.user, s.market, s.quotedCents, s.now)
    case None => NoMoves(db, db, u);
    case Some(stake) =>
      PlaceBetMoves(db, s.user, s.market, s.side, stake, s.priceBp, u);
      SameMoneyMoves(db, PlaceBet(db, s.user, s.market, s.side, stake, s.priceBp), Apply(db, s), u);
  }

  lemma {:induction false} SameMoneyMoves(db: Db, mid: Db, out: Db, u: UserId)
    requires Moves(db, mid, u, 0)
    requires out.bets == mid.bets && out.lots == mid.lots && out.balances == mid.balances
    ensures Moves(db, out, u, 0)
  {}

  lemma {:induction false} StepKeepsRows(db: Db, s: Step)
    requires Constraints(db) && RowsPresent(db)
    ensures RowsPresent(Apply(db, s))
  {
    hide Referred, RowOf, DueIndex, SettleBalances;
    if s.SettleMarket? && !s.resolution.Unresolved? {
      SettleProvisioned(Books(db.bets, db.balances), s.market, s.resolution);
    }
  }

  lemma {:induction false} StepKeepsInv(db: Db, s: Step)
    requires Inv(db)
    ensures Inv(Apply(db, s))
  {
    hide Constraints, Referred;
    var out := Apply(db, s);
    StepKeepsConstraints(db, s);
    StepKeepsRows(db, s);
    forall u | u in out.balances ensures Covered(out, u) {
      HoldAfter(db, s, u);
    }
  }

  lemma {:induction false} HoldAfter(db: Db, s: Step, u: UserId)
    requires Inv(db) && u in Apply(db, s).balances
    ensures Covered(Apply(db, s), u)
  {
    hide Apply, Constraints;
    StepMoves(db, s, u);
    if u !in db.balances {
      NoRowNothingHeld(db, u);
    }
  }

  // ---------------------------------------------------------------- whole runs

  function Credits(db: Db, steps: seq<Step>, u: UserId): int
    decreases |steps|
  {
    if steps == [] then 0 else Credit(db, steps[0], u) + Credits(Apply(db, steps[0]), steps[1..], u)
  }

  /**
   * Over every run: each hold is exactly the user's pending paper stakes and open lots, cash never
   * goes negative, and the balance is what came in from outside plus what paper trading earned.
   */
  lemma {:induction false} CashOverRuns(db: Db, steps: seq<Step>, u: UserId)
    requires Inv(db)
    ensures Inv(Run(db, steps))
    ensures Total(Run(db, steps), u) - Earned(Run(db, steps), u)
            == Total(db, u) - Earned(db, u) + Credits(db, steps, u)
    decreases |steps|
  {
    if steps != [] {
      hide Apply, Moves;
      var next := Apply(db, steps[0]);
      StepKeepsInv(db, steps[0]);
      BooksAfter(db, steps[0], u);
      CashOverRuns(next, steps[1..], u);
    }
  }

  lemma {:induction false} BooksAfter(db: Db, s: Step, u: UserId)
    requires Inv(db)
    ensures Total(Apply(db, s), u) - Earned(Apply(db, s), u) == Total(db, u) - Earned(db, u) + Credit(db, s, u)
  {
    hide Apply, Constraints;
    StepMoves(db, s, u);
    StepKeepsRows(db, s);
    if u !in Apply(db, s).balances {
      NoRowNothingHeld(db, u);
      NoRowNothingHeld(Apply(db, s), u);
      NoCredit(db, s, u);
    }
  }

  lemma {:induction false} NoCredit(db: Db, s: Step, u: UserId)
    requires u !in Apply(db, s).balances
    ensures Credit(db, s, u) == 0
  {
    hide Settle, RowOf, Referred, CanBet;
  }

  /** From an empty database, for every user and every run. */
  lemma {:induction false} CashFromScratch(steps: seq<Step>, u: UserId)
    ensures var db := Run(Empty(), steps);
            u in db.balances ==>
              && 0 <= db.balances[u].lockedCents <= db.balances[u].balanceCents
              && db.balances[u].lockedCents == Held(db, u)
              && db.balances[u].balanceCents == Credits(Empty(), steps, u) + Earned(db, u)
  {
    var db := Run(Empty(), steps);
    CashOverRuns(Empty(), steps, u);
    HeldNonneg(db, u);
  }

  /** The hold is the pending stakes alone exactly for users with no open stock lot. */
  lemma {:induction false} HoldIsStakesIff(db: Db, u: UserId)
    requires Inv(db) && u in db.balances
    ensures db.balances[u].lockedCents == Sum(db.bets, PendingStake(u))
            <==> forall i :: 0 <= i < |db.lots| && db.lots[i].user == u ==> db.lots[i].proceedsCents.Some?
  {
    SumNonneg(db.lots, OpenCost(u));
    if forall i :: 0 <= i < |db.lots| && db.lots[i].user == u ==> db.lots[i].proceedsCents.Some? {
      SumZero(db.lots, OpenCost(u));
    } else {
      var i :| 0 <= i < |db.lots| && db.lots[i].user == u && db.lots[i].proceedsCents.None?;
      assert OpenCost(u)(db.lots[i]) > 0;
    }
  }

  /** A bet on a reachable database always settles against an existing row: none is ever seeded. */
  lemma {:induction false} SafetyNetNeverFires(db: Db, m: MarketId, r: Resolution, now: int)
    requires Inv(db)
    ensures Settle(db, m, r, now).balances.Keys == db.balances.Keys
    ensures Provisioned(Books(db.bets, db.balances))
  {
    if !r.Unresolved? {
      SettleProvisioned(Books(db.bets, db.balances), m, r);
    }
  }
}
