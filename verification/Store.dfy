/** The database as an object: tables that statements and transactions update in place. */
module Store {
  import opened Options
  import opened Tables
  import opened Runs

  class Database {
    var markets: map<MarketId, Market>
    var bets: seq<Bet>
    var balances: map<UserId, Balance>
    var lots: seq<Lot>
    var metas: map<MarketId, Meta>
    var events: seq<Option<MarketId>>
    var attempts: seq<MarketId>
    var nextId: MarketId

    constructor (db: Db)
      ensures Snapshot() == db
    {
      markets, bets, balances, lots := db.markets, db.bets, db.balances, db.lots;
      metas, events, attempts, nextId := db.metas, db.events, db.attempts, db.nextId;
    }

    function Snapshot(): Db
      reads this
    {
      Db(markets, bets, balances, lots, metas, events, attempts, nextId)
    }

    /** Make a transaction's private copy the state everyone sees. */
    method Commit(db: Db)
      modifies this
      ensures Snapshot() == db
    {
      markets, bets, balances, lots := db.markets, db.bets, db.balances, db.lots;
      metas, events, attempts, nextId := db.metas, db.events, db.attempts, db.nextId;
    }

    method Perform(s: Step)
      modifies this
      ensures Snapshot() == Apply(old(Snapshot()), s)
    {
      Commit(Apply(Snapshot(), s));
    }

    /** Other clients' committed steps, between two statements of the caller. */
    method Others(steps: seq<Step>)
      modifies this
      ensures Snapshot() == Run(old(Snapshot()), steps)
    {
      var i := 0;
      while i < |steps|
        invariant 0 <= i <= |steps|
        invariant Run(Snapshot(), steps[i..]) == Run(old(Snapshot()), steps)
      {
        assert steps[i..][1..] == steps[i + 1..];
        Perform(steps[i]);
        i := i + 1;
      }
    }
  }
}
