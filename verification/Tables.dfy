/** The rows behind settlement: markets, bets, balances, stock lots and what refers to a market. */
module Tables {
  import opened Options
  import opened Pnl

  type UserId = nat
  type MarketId = nat
  type PolyId = nat // the external market id, unique per row

  datatype MarketStatus = OPEN | CLOSED | RESOLVED | CANCELED
  datatype MarketOutcome = OutcomeYes | OutcomeNo | OutcomeInvalid
  datatype Source = POLYMARKET | TXODDS

  /** The executable numbers read off the order books of both sides. */
  datatype Book = Book(
    yesEffBp: Option<int>, noEffBp: Option<int>,
    yesMaxCents: Option<int>, noMaxCents: Option<int>,
    readAt: Option<int>)

  /** Read, and nothing to be had: no executable price and no size on either side. */
  predicate NoOffer(b: Book, now: int) {
    && b.yesEffBp == None && b.noEffBp == None && b.yesMaxCents == Some(0) && b.noMaxCents == Some(0)
    && b.readAt == Some(now)
  }

  datatype Market = Market(
    poly: PolyId, source: Source,
    status: MarketStatus, outcome: Option<MarketOutcome>, resolvedAt: Option<int>,
    deadline: int, startsAt: Option<int>,
    book: Book)

  /** The test before the terminal transition. */
  predicate Terminal(m: Market) { m.status.RESOLVED? || m.status.CANCELED? }

  /** What the statements about decided markets mean by it, whatever that test says. */
  predicate Decided(m: Market) { m.status == RESOLVED || m.status == CANCELED }

  datatype Mode = PAPER | REAL
  datatype Settlement = PENDING | SETTLED | VOID
  datatype BetResult = Undecided | WIN | LOSS | PUSH

  datatype Bet = Bet(
    user: UserId, market: MarketId, mode: Mode,
    side: Side, stakeCents: int, lockedPriceBp: int,
    settlement: Settlement, result: BetResult,
    payoutCents: Option<int>, pnlCents: Option<int>, resolvedYes: Option<bool>)

  datatype Balance = Balance(balanceCents: int, lockedCents: int)

  /** A paper position in a tokenized stock; open until it has proceeds. */
  datatype Lot = Lot(user: UserId, costCents: int, proceedsCents: Option<int>)

  datatype Meta = Meta(s2Eligible: bool)

  /** Bets and lots are never deleted, so a row's id is its index. */
  datatype Db = Db(
    markets: map<MarketId, Market>,
    bets: seq<Bet>,
    balances: map<UserId, Balance>,
    lots: seq<Lot>,
    metas: map<MarketId, Meta>,
    events: seq<Option<MarketId>>,   // hedge suggestion events
    attempts: seq<MarketId>,         // order attempts
    nextId: MarketId)

  /** What the database itself enforces: foreign keys and unique keys. */
  ghost predicate Constraints(db: Db) {
    && (forall i :: 0 <= i < |db.bets| ==> db.bets[i].market in db.markets)
    && (forall i :: 0 <= i < |db.events| && db.events[i].Some? ==> db.events[i].value in db.markets)
    && (forall i :: 0 <= i < |db.attempts| ==> db.attempts[i] in db.markets)
    && db.metas.Keys <= db.markets.Keys
    && OneBetEach(db.bets)
    && OneRowEach(db.markets)
    && (forall m :: m in db.markets ==> m < db.nextId)
  }

  /** One bet per user, market and mode. */
  ghost predicate OneBetEach(bets: seq<Bet>) {
    forall i, j :: 0 <= i < j < |bets| ==>
      bets[i].user != bets[j].user || bets[i].market != bets[j].market || bets[i].mode != bets[j].mode
  }

  /** One row per external market id. */
  ghost predicate OneRowEach(markets: map<MarketId, Market>) {
    forall m, n :: m in markets && n in markets && markets[m].poly == markets[n].poly ==> m == n
  }
}
