/**
 * Runs: everything that writes these tables, one committed statement or transaction per step, in any
 * interleaving. A step whose guard fails rolls back and leaves the database as it was.
 */
module Runs {
  import opened Options
  import opened Pnl
  import opened Tables
  import opened Ledger

  const START_BALANCE_CENTS := 20_000
  const STAKE_CENTS := 1_000
  const TOPUP_GRANT_CENTS := 20_000
  const HEDGE_MIN_STAKE_CENTS := 100
  const DECK_MIN_LEAD_MS := 300_000

  /** The market columns the two refreshers write; status is not among them. */
  datatype Quote = Quote(poly: PolyId, deadline: int, startsAt: Option<int>, book: Book)

  datatype Step =
    | Provision(user: UserId)
    | TopUp(user: UserId)
    | Swipe(user: UserId, market: MarketId, side: Side, priceBp: int)
    | Accept(user: UserId, market: MarketId, side: Side, priceBp: int, quotedCents: int, now: int)
    | BuyLot(user: UserId, costCents: int)
    | SellLot(lot: nat, proceedsCents: nat)
    | RealFill(user: UserId, market: MarketId, side: Side, stakeCents: int, priceBp: int)
    | RealSettle(bet: nat, pnlCents: int)
    | SettleMarket(market: MarketId, resolution: Resolution, now: int)
    | Upsert(quote: Quote)
    | WriteMeta(market: MarketId, s2Eligible: Option<bool>)
    | Stamp(polys: set<PolyId>, now: int)
    | FreshBook(market: MarketId, book: Book)
    | Demote(keep: set<MarketId>, unevaluated: set<PolyId>)
    | LogEvent(about: Option<MarketId>)
    | LogAttempt(market: MarketId)
    | PruneMetas(chunk: set<MarketId>)
    | PruneRows(chunk: set<MarketId>)

  // ---------------------------------------------------------------- the steps

  function NewBet(u: UserId, m: MarketId, mode: Mode, side: Side, stake: int, priceBp: int): Bet {
    Bet(u, m, mode, side, stake, priceBp, PENDING, Undecided, None, None, None)
  }

  predicate CanBet(db: Db, u: UserId, m: MarketId, mode: Mode) {
    && m in db.markets
    && forall i :: 0 <= i < |db.bets| ==>
         db.bets[i].user != u || db.bets[i].market != m || db.bets[i].mode != mode
  }

  function Cash(db: Db, u: UserId): int {
    if u in db.balances then db.balances[u].balanceCents - db.balances[u].lockedCents else 0
  }

  /** holdCash: the conditional UPDATE finds a row with enough free cash. */
  predicate CanHold(db: Db, u: UserId, cents: int) { u in db.balances && Cash(db, u) >= cents }

  function Hold(db: Db, u: UserId, cents: int): Db
    requires u in db.balances
  {
    var v := db.balances[u];
    db.(balances := db.balances[u := v.(lockedCents := v.lockedCents + cents)])
  }

  function PlaceBet(db: Db, u: UserId, m: MarketId, side: Side, stake: int, priceBp: int): Db
    requires u in db.balances
  {
    Hold(db, u, stake).(bets := db.bets + [NewBet(u, m, PAPER, side, stake, priceBp)])
  }

  function Min(a: int, b: int): int { if a < b then a else b }

  /** The stake a hedge is accepted at; None when the transaction is refused. */
  function AcceptStake(db: Db, u: UserId, m: MarketId, quotedCents: int, now: int): Option<int> {
    var stake := Min(quotedCents, Cash(db, u));
    if && CanBet(db, u, m, PAPER)
       && db.markets[m].status.OPEN? && db.markets[m].deadline > now + DECK_MIN_LEAD_MS
       && stake >= HEDGE_MIN_STAKE_CENTS
    then Some(stake) else None
  }

  /** Some row still refers to the market and no statement deletes it under that row. */
  predicate Referred(db: Db, m: MarketId) {
    || (exists i :: 0 <= i < |db.bets| && db.bets[i].market == m)
    || Some(m) in db.events
    || m in db.attempts
  }

  function Deletable(db: Db, chunk: set<MarketId>): set<MarketId> {
    set m | m in chunk && m in db.markets && !Referred(db, m)
  }

  /** Looks the unique key up among the ids below n. */
  function RowOf(markets: map<MarketId, Market>, p: PolyId, n: MarketId): (r: Option<MarketId>)
    ensures r.Some? ==> r.value in markets && markets[r.value].poly == p
    ensures r.None? ==> forall m :: m < n && m in markets ==> markets[m].poly != p
  {
    if n == 0 then None
    else if n - 1 in markets && markets[n - 1].poly == p then Some(n - 1)
    else RowOf(markets, p, n - 1)
  }

  function StampBook(now: int): Book { Book(None, None, Some(0), Some(0), Some(now)) }

  function UpsertMarket(db: Db, q: Quote): Db {
    match RowOf(db.markets, q.poly, db.nextId)
    case Some(m) =>
      db.(markets := db.markets[m := db.markets[m].(deadline := q.deadline, startsAt := q.startsAt, book := q.book)])
    case None =>
      var row := Market(q.poly, POLYMARKET, OPEN, None, None, q.deadline, q.startsAt, q.book);
      db.(markets := db.markets[db.nextId := row], nextId := db.nextId + 1)
  }

  function UpsertMeta(db: Db, m: MarketId, s2: Option<bool>): Db {
    if m !in db.markets then db
    else
      var eligible := match s2 case Some(b) => b case None => m in db.metas && db.metas[m].s2Eligible;
      db.(metas := db.metas[m := Meta(eligible)])
  }

  function Apply(db: Db, s: Step): Db {
    match s
    case Provision(u) =>
      if u in db.balances then db else db.(balances := db.balances[u := Balance(START_BALANCE_CENTS, 0)])
    case TopUp(u) =>
      var v := if u in db.balances then db.balances[u] else Balance(START_BALANCE_CENTS, 0);
      db.(balances := db.balances[u := v.(balanceCents := v.balanceCents + TOPUP_GRANT_CENTS)])
    case Swipe(u, m, side, p) =>
      if CanBet(db, u, m, PAPER) && CanHold(db, u, STAKE_CENTS) then PlaceBet(db, u, m, side, STAKE_CENTS, p)
      else db
    case Accept(u, m, side, p, quoted, now) =>
      (match AcceptStake(db, u, m, quoted, now)
       case Some(stake) => PlaceBet(db, u, m, side, stake, p).(events := db.events + [Some(m)])
       case None => db)
    case BuyLot(u, cost) =>
      if cost > 0 && CanHold(db, u, cost) then Hold(db, u, cost).(lots := db.lots + [Lot(u, cost, None)])
      else db
    case SellLot(i, proceeds) =>
      if i < |db.lots| && db.lots[i].proceedsCents.None? && db.lots[i].user in db.balances then
        var l := db.lots[i];
        var v := db.balances[l.user];
        db.(lots := db.lots[i := l.(proceedsCents := Some(proceeds))],
            balances := db.balances[l.user :=
                          Balance(v.balanceCents + (proceeds - l.costCents), v.lockedCents - l.costCents)])
      else db
    case RealFill(u, m, side, stake, p) =>
      if CanBet(db, u, m, REAL) then db.(bets := db.bets + [NewBet(u, m, REAL, side, stake, p)]) else db
    case RealSettle(i, pnl) =>
      if i < |db.bets| && db.bets[i].mode.REAL? then
        db.(bets := db.bets[i := db.bets[i].(settlement := SETTLED, pnlCents := Some(pnl))])
      else db
    case SettleMarket(m, r, now) => Settle(db, m, r, now)
    case Upsert(q) => UpsertMarket(db, q)
    case WriteMeta(m, s2) => UpsertMeta(db, m, s2)
    case Stamp(polys, now) =>
      db.(markets := map m | m in db.markets ::
            if db.markets[m].poly in polys then db.markets[m].(book := StampBook(now)) else db.markets[m])
    case FreshBook(m, book) =>
      if m in db.markets then db.(markets := db.markets[m := db.markets[m].(book := book)]) else db
    case Demote(keep, unevaluated) =>
      db.(metas := map m | m in db.metas ::
            if m !in keep && m in db.markets && db.markets[m].poly !in unevaluated
            then Meta(false) else db.metas[m])
    case LogEvent(about) =>
      if about.Some? && about.value !in db.markets then db else db.(events := db.events + [about])
    case LogAttempt(m) =>
      if m in db.markets then db.(attempts := db.attempts + [m]) else db
    case PruneMetas(chunk) =>
      db.(metas := map m | m in db.metas && m !in chunk :: db.metas[m])
    case PruneRows(chunk) =>
      // a MarketMeta row in the way makes the foreign key refuse the whole statement
      var doomed := Deletable(db, chunk);
      if doomed !! db.metas.Keys then db.(markets := map m | m in db.markets && m !in doomed :: db.markets[m])
      else db
  }

  function Run(db: Db, steps: seq<Step>): Db
    decreases |steps|
  {
    if steps == [] then db else Run(Apply(db, steps[0]), steps[1..])
  }

  function Empty(): Db { Db(map[], [], map[], [], map[], [], [], 0) }

  lemma {:induction false} RunConcat(db: Db, a: seq<Step>, b: seq<Step>)
    ensures Run(db, a + b) == Run(Run(db, a), b)
    decreases |a|
  {
    if a == [] {
      assert a + b == b;
    } else {
      assert (a + b)[1..] == a[1..] + b;
      RunConcat(Apply(db, a[0]), a[1..], b);
    }
  }

  // ---------------------------------------------------------------- what placing a bet does

  /** u has a row with this much cash free, m exists, and u has no paper bet on it yet. */
  ghost predicate MayStake(db: Db, u: UserId, m: MarketId, cents: int) {
    && m in db.markets && u in db.balances
    && db.balances[u].balanceCents - db.balances[u].lockedCents >= cents
    && !exists b :: b in db.bets && b.user == u && b.market == m && b.mode == PAPER
  }

  ghost predicate IsOpenBet(b: Bet, u: UserId, m: MarketId, side: Side, stake: int, priceBp: int) {
    && b.user == u && b.market == m && b.mode == PAPER
    && b.side == side && b.stakeCents == stake && b.lockedPriceBp == priceBp
    && b.settlement == PENDING && b.result == Undecided
    && b.payoutCents == None && b.pnlCents == None && b.resolvedYes == None
  }

  /** One more bet, pending and undecided, with its stake held; nothing else of money or bets moves. */
  ghost predicate BetPlaced(db: Db, out: Db, u: UserId, m: MarketId, side: Side, stake: int, priceBp: int) {
    && |out.bets| == |db.bets| + 1 && db.bets <= out.bets
    && IsOpenBet(out.bets[|db.bets|], u, m, side, stake, priceBp)
    && u in db.balances
    && out.balances ==
       db.balances[u := Balance(db.balances[u].balanceCents, db.balances[u].lockedCents + stake)]
    && out.lots == db.lots && out.markets == db.markets && out.metas == db.metas && out.nextId == db.nextId
  }

  lemma {:induction false} MayBet(db: Db, u: UserId, m: MarketId)
    ensures CanBet(db, u, m, PAPER) <==>
            m in db.markets && !exists b :: b in db.bets && b.user == u && b.market == m && b.mode == PAPER
  {
    assert forall i :: 0 <= i < |db.bets| ==> db.bets[i] in db.bets;
  }

  /** A swipe places a ten-dollar bet on the side and at the price given, or changes nothing at all. */
  lemma {:induction false} SwipeEffect(db: Db, u: UserId, m: MarketId, side: Side, p: int)
    ensures var out := Apply(db, Swipe(u, m, side, p));
            if MayStake(db, u, m, 1_000)
            then BetPlaced(db, out, u, m, side, 1_000, p) && out.events == db.events && out.attempts == db.attempts
            else out == db
  {
    hide CanBet, RowOf, Referred;
    MayBet(db, u, m);
  }

  /**
   * A hedge is accepted when the market is open, more than five minutes from its deadline, not bet on
   * yet, and at least a dollar is both quoted and free; the stake is the smaller of the two.
   */
  lemma {:induction false} AcceptEffect(db: Db, u: UserId, m: MarketId, side: Side, p: int, quoted: int, now: int)
    ensures var out := Apply(db, Accept(u, m, side, p, quoted, now));
            if && quoted >= 100 && MayStake(db, u, m, 100)
               && db.markets[m].status == OPEN && now + 5 * 60 * 1_000 < db.markets[m].deadline
            then var free := db.balances[u].balanceCents - db.balances[u].lockedCents;
                 && BetPlaced(db, out, u, m, side, if quoted <= free then quoted else free, p)
                 && out.events == db.events + [Some(m)] && out.attempts == db.attempts
            else out == db
  {
    hide CanBet, RowOf, Referred;
    MayBet(db, u, m);
  }

  // ---------------------------------------------------------------- no row loses its parent

  lemma {:induction false} NewBetConstraints(db: Db, b: Bet)
    requires Constraints(db) && CanBet(db, b.user, b.market, b.mode)
    ensures Constraints(db.(bets := db.bets + [b]))
  {}

  lemma {:induction false} SameRowsConstraints(db: Db, markets: map<MarketId, Market>)
    requires Constraints(db) && markets.Keys == db.markets.Keys
    requires forall m :: m in markets ==> markets[m].poly == db.markets[m].poly
    ensures Constraints(db.(markets := markets))
  {}

  lemma {:induction false} SettleConstraints(db: Db, m: MarketId, r: Resolution, now: int)
    requires Constraints(db)
    ensures Constraints(Settle(db, m, r, now))
  {
    hide DueIndex, SettleBalances;
    if !r.Unresolved? {
      var out := Settle(db, m, r, now);
      SameRowsConstraints(db, out.markets);
      NothingLeftDue(db.bets, m, r, m);
    }
  }

  lemma {:induction false} UpsertConstraints(db: Db, q: Quote)
    requires Constraints(db)
    ensures Constraints(UpsertMarket(db, q))
  {
    hide RowOf;
    var out := UpsertMarket(db, q);
    if RowOf(db.markets, q.poly, db.nextId).Some? {
      SameRowsConstraints(db, out.markets);
    } else {
      assert forall m :: m in out.markets ==> m in db.markets || m == db.nextId;
    }
  }

  lemma {:induction false} PruneConstraints(db: Db, chunk: set<MarketId>)
    requires Constraints(db)
    ensures Constraints(Apply(db, PruneRows(chunk)))
  {
    var out := Apply(db, PruneRows(chunk));
    forall i | 0 <= i < |db.bets| ensures db.bets[i].market in out.markets {
      assert Referred(db, db.bets[i].market);
    }
    forall i | 0 <= i < |db.events| && db.events[i].Some? ensures db.events[i].value in out.markets {
      assert Referred(db, db.events[i].value);
    }
    forall i | 0 <= i < |db.attempts| ensures db.attempts[i] in out.markets {
      assert Referred(db, db.attempts[i]);
    }
  }

  /** Every foreign key and unique key holds after every step. */
  lemma {:induction false} StepKeepsConstraints(db: Db, s: Step)
    requires Constraints(db)
    ensures Constraints(Apply(db, s))
  {
    hide Constraints, Referred, RowOf, Settle, CanBet, Deletable;
    match s
    case SettleMarket(m, r, now) => SettleConstraints(db, m, r, now);
    case Upsert(q) => UpsertConstraints(db, q);
    case PruneRows(chunk) => PruneConstraints(db, chunk);
    case Swipe(_, _, _, _) => BetStepConstraints(db, s);
    case Accept(_, _, _, _, _, _) => BetStepConstraints(db, s);
    case RealFill(_, _, _, _, _) => BetStepConstraints(db, s);
    case _ => PlainStepConstraints(db, s);
  }

  lemma {:induction false} BetStepConstraints(db: Db, s: Step)
    requires Constraints(db) && (s.Swipe? || s.Accept? || s.RealFill?)
    ensures Constraints(Apply(db, s))
  {
    var out := Apply(db, s);
    if |out.bets| > |db.bets| {
      NewBetConstraints(db, out.bets[|db.bets|]);
    }
  }

  lemma {:induction false} PlainStepConstraints(db: Db, s: Step)
    requires Constraints(db)
    requires !(s.SettleMarket? || s.Upsert? || s.PruneRows? || s.Swipe? || s.Accept? || s.RealFill?)
    ensures Constraints(Apply(db, s))
  {
    hide RowOf, Deletable, Referred;
    var out := Apply(db, s);
    if s.Stamp? || s.FreshBook? {
      SameRowsConstraints(db, out.markets);
    } else if s.Provision? || s.TopUp? || s.BuyLot? || s.SellLot? {
      MoneyConstraints(db, out);
    } else {
      LogConstraints(db, s);
    }
  }

  lemma {:induction false} MoneyConstraints(db: Db, out: Db)
    requires Constraints(db) && out == db.(balances := out.balances, lots := out.lots)
    ensures Constraints(out)
  {}

  lemma {:induction false} LogConstraints(db: Db, s: Step)
    requires Constraints(db)
    requires s.RealSettle? || s.WriteMeta? || s.Demote? || s.LogEvent? || s.LogAttempt? || s.PruneMetas?
    ensures Constraints(Apply(db, s))
  {
    hide RowOf, Deletable, Referred, CanBet;
  }
}
