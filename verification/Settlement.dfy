/** `settleMarket` as it runs: one transaction that updates bets, balances and the market in place. */
module Settlement {
  import opened Options
  import opened Tables
  import opened Ledger
  import opened Store

  function DueIds(bets: seq<Bet>, m: MarketId): set<nat> {
    set i: nat | i < |bets| && Due(bets[i], m)
  }

  /** Balances once the bets in `done` have been paid out, whatever the order. */
  ghost predicate BalancesPaid(
      before: map<UserId, Balance>, now: map<UserId, Balance>, bets: seq<Bet>, done: set<nat>, r: Resolution)
    requires forall i :: i in done ==> i < |bets|
  {
    && (forall i :: i in done ==>
          bets[i].user in now && now[bets[i].user] == Pay(Row(before, bets[i].user), bets[i], r))
    && (forall u :: u in before && (forall i :: i in done ==> bets[i].user != u) ==>
          u in now && now[u] == before[u])
    && (forall u :: u in now ==> u in before || exists i :: i in done && bets[i].user == u)
  }

  /** The bets in `done` are rewritten and no others. */
  ghost predicate Rewritten(before: seq<Bet>, now: seq<Bet>, done: set<nat>, r: Resolution) {
    && |now| == |before|
    && (forall i :: i in done ==> i < |before|)
    && forall i: nat :: i < |before| ==> now[i] == if i in done then SettleRow(before[i], r) else before[i]
  }

  ghost predicate PaidSoFar(was: Books, now: Books, m: MarketId, done: set<nat>, r: Resolution) {
    && done <= DueIds(was.bets, m)
    && Rewritten(was.bets, now.bets, done, r)
    && BalancesPaid(was.balances, now.balances, was.bets, done, r)
  }

  /** One turn of the loop: the bet's row, then its user's balance. */
  method PayOut(db: Database, i: nat, r: Resolution)
    requires i < |db.bets|
    modifies db`bets, db`balances
    ensures Books(db.bets, db.balances) == Paid(old(Books(db.bets, db.balances)), i, r)
  {
    var bet := db.bets[i];
    db.bets := db.bets[i := SettleRow(bet, r)];
    db.balances := db.balances[bet.user := Pay(Row(db.balances, bet.user), bet, r)];
  }

  function Paid(k: Books, i: nat, r: Resolution): Books
    requires i < |k.bets|
  {
    var b := k.bets[i];
    Books(k.bets[i := SettleRow(b, r)], k.balances[b.user := Pay(Row(k.balances, b.user), b, r)])
  }

  lemma {:induction false} OneMore(was: Books, k: Books, m: MarketId, done: set<nat>, i: nat, r: Resolution)
    requires OneBetEach(was.bets) && PaidSoFar(was, k, m, done, r) && i in DueIds(was.bets, m) && i !in done
    ensures i < |k.bets| && PaidSoFar(was, Paid(k, i, r), m, done + {i}, r)
  {
    hide SettleRow, Pay;
    FreshUser(was.bets, m, done, i);
    RewrittenOneMore(was.bets, k.bets, done, i, r);
    PaidOneMore(was.balances, k.balances, was.bets, done, i, r);
  }

  /** The loop over the pending bets, in whatever order the query returns them. */
  method PayAll(db: Database, m: MarketId, r: Resolution) returns (settled: nat, voided: nat)
    requires OneBetEach(db.bets) && !r.Unresolved?
    modifies db`bets, db`balances
    ensures Books(db.bets, db.balances) == SettleBooks(old(Books(db.bets, db.balances)), m, r)
    ensures settled + voided == |DueIds(old(db.bets), m)| && (if r.Voided? then settled == 0 else voided == 0)
  {
    hide *;
    ghost var was := Books(db.bets, db.balances);
    var due := DueIds(db.bets, m);
    var todo := due;
    ghost var done: set<nat> := {};
    settled, voided := 0, 0;
    NothingPaidYet(was, m, r);
    while todo != {}
      invariant done + todo == due && done !! todo
      invariant PaidSoFar(was, Books(db.bets, db.balances), m, done, r)
      invariant settled + voided == |done| && (if r.Voided? then settled == 0 else voided == 0)
      decreases |todo|
    {
      var i :| i in todo;
      OneMore(was, Books(db.bets, db.balances), m, done, i, r);
      PayOut(db, i, r);
      done, todo := done + {i}, todo - {i};
      if r.Voided? {
        voided := voided + 1;
      } else {
        settled := settled + 1;
      }
    }
    assert done == due;
    AllPaid(was, Books(db.bets, db.balances), m, r);
  }

  method SettleMarket(db: Database, m: MarketId, r: Resolution, now: int) returns (settled: nat, voided: nat)
    requires Constraints(db.Snapshot())
    modifies db
    ensures db.Snapshot() == Settle(old(db.Snapshot()), m, r, now)
    ensures r.Unresolved? ==> settled == voided == 0
    ensures r.Voided? ==> settled == 0 && voided == |DueIds(old(db.bets), m)|
    ensures r.Resolved? ==> voided == 0 && settled == |DueIds(old(db.bets), m)|
  {
    if r.Unresolved? {
      return 0, 0;
    }
    if m in db.markets && !Terminal(db.markets[m]) {
      db.markets := db.markets[m := CloseMarket(db.markets[m], r, now)];
    }
    settled, voided := PayAll(db, m, r);
  }

  lemma {:induction false} RewrittenOneMore(before: seq<Bet>, now: seq<Bet>, done: set<nat>, i: nat, r: Resolution)
    requires Rewritten(before, now, done, r) && i < |before| && i !in done
    ensures now[i] == before[i] && Rewritten(before, now[i := SettleRow(now[i], r)], done + {i}, r)
  {
    hide SettleRow;
  }

  lemma {:induction false} AllRewritten(before: seq<Bet>, now: seq<Bet>, m: MarketId, r: Resolution)
    requires Rewritten(before, now, DueIds(before, m), r)
    ensures now == SettleBets(before, m, r)
  {
    hide SettleRow;
  }

  lemma {:induction false} NothingPaidYet(was: Books, m: MarketId, r: Resolution)
    ensures PaidSoFar(was, was, m, {}, r)
  {}

  lemma {:induction false} FreshUser(bets: seq<Bet>, m: MarketId, done: set<nat>, i: nat)
    requires OneBetEach(bets) && done <= DueIds(bets, m) && i in DueIds(bets, m) && i !in done
    ensures forall j :: j in done ==> bets[j].user != bets[i].user
  {
    forall j | j in done ensures bets[j].user != bets[i].user {
      assert bets[j].market == bets[i].market && bets[j].mode == bets[i].mode;
    }
  }

  lemma {:induction false} PaidOneMore(
      before: map<UserId, Balance>, now: map<UserId, Balance>, bets: seq<Bet>, done: set<nat>, i: nat, r: Resolution)
    requires i < |bets| && forall j :: j in done ==> j < |bets| && bets[j].user != bets[i].user
    requires BalancesPaid(before, now, bets, done, r)
    ensures var b := bets[i];
            BalancesPaid(before, now[b.user := Pay(Row(now, b.user), b, r)], bets, done + {i}, r)
  {
    hide SettleRow, Pay;
    var b := bets[i];
    var next := now[b.user := Pay(Row(now, b.user), b, r)];
    assert Row(now, b.user) == Row(before, b.user);
    forall u | u in next ensures u in before || exists j :: j in done + {i} && bets[j].user == u {
      if u == b.user {
        assert i in done + {i};
      } else if u !in before {
        var j :| j in done && bets[j].user == u;
        assert j in done + {i};
      }
    }
    forall u | u in before && (forall j :: j in done + {i} ==> bets[j].user != u)
      ensures u in next && next[u] == before[u]
    {
      assert i in done + {i};
      assert forall j :: j in done ==> j in done + {i};
    }
  }

  lemma {:induction false} AllPaid(was: Books, now: Books, m: MarketId, r: Resolution)
    requires OneBetEach(was.bets) && !r.Unresolved? && PaidSoFar(was, now, m, DueIds(was.bets, m), r)
    ensures now == SettleBooks(was, m, r)
  {
    AllRewritten(was.bets, now.bets, m, r);
    AllBalances(was.bets, was.balances, now.balances, m, r);
  }

  lemma {:induction false} AllBalances(
      bets: seq<Bet>, before: map<UserId, Balance>, now: map<UserId, Balance>, m: MarketId, r: Resolution)
    requires OneBetEach(bets) && !r.Unresolved? && BalancesPaid(before, now, bets, DueIds(bets, m), r)
    ensures now == SettleBalances(bets, before, m, r)
  {
    hide DueIndex;
    var spec := SettleBalances(bets, before, m, r);
    forall u | u in spec ensures u in now && now[u] == spec[u] {
      match DueIndex(bets, m, u)
      case Some(i) => assert i in DueIds(bets, m);
      case None =>
    }
    forall u | u in now ensures u in spec {
      if u !in before {
        var i :| i in DueIds(bets, m) && bets[i].user == u;
        assert u in Bettors(bets, m);
      }
    }
  }
}
