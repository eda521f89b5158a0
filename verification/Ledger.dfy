/** Settlement of one market, as a function on the bets and balances it touches. */
module Ledger {
  import opened Options
  import opened Pnl
  import opened Tables

  datatype Resolution = Unresolved | Voided | Resolved(yes: bool)

  /** The bets `settleMarket` selects. */
  predicate Due(b: Bet, m: MarketId) { b.market == m && b.settlement.PENDING? && b.mode.PAPER? }

  function SettleRow(b: Bet, r: Resolution): Bet {
    match r
    case Unresolved => b
    case Voided =>
      b.(settlement := VOID, result := PUSH, payoutCents := Some(0), pnlCents := Some(0))
    case Resolved(yes) =>
      var p := ComputePnl(b.side, b.stakeCents, b.lockedPriceBp, yes);
      b.(settlement := SETTLED, result := if p.won then WIN else LOSS,
         payoutCents := Some(p.payoutCents), pnlCents := Some(p.pnlCents), resolvedYes := Some(yes))
  }

  /** What settling b moves its user's balance by. */
  function Gain(b: Bet, r: Resolution): int {
    match r
    case Resolved(yes) => ComputePnl(b.side, b.stakeCents, b.lockedPriceBp, yes).pnlCents
    case _ => 0
  }

  /** The balance upsert: apply the gain and release the hold, or seed a missing row. */
  function Pay(prev: Option<Balance>, b: Bet, r: Resolution): Balance {
    match prev
    case Some(v) => Balance(v.balanceCents + Gain(b, r), v.lockedCents - b.stakeCents)
    case None => Balance(if Gain(b, r) > 0 then Gain(b, r) else 0, 0)
  }

  function Row<K(==), V>(m: map<K, V>, k: K): Option<V> { if k in m then Some(m[k]) else None }

  function SettleBets(bets: seq<Bet>, m: MarketId, r: Resolution): (out: seq<Bet>)
    ensures |out| == |bets|
    ensures forall i :: 0 <= i < |bets| ==> out[i] == if Due(bets[i], m) then SettleRow(bets[i], r) else bets[i]
  {
    seq(|bets|, i requires 0 <= i < |bets| => if Due(bets[i], m) then SettleRow(bets[i], r) else bets[i])
  }

  /** The user's due bet on m, the last of them if there were several. */
  function DueIndex(bets: seq<Bet>, m: MarketId, u: UserId): (r: Option<nat>)
    ensures r.Some? ==> r.value < |bets| && Due(bets[r.value], m) && bets[r.value].user == u
    ensures r.None? ==> forall i :: 0 <= i < |bets| && bets[i].user == u ==> !Due(bets[i], m)
  {
    if bets == [] then None
    else
      var n := |bets| - 1;
      if Due(bets[n], m) && bets[n].user == u then Some(n) else DueIndex(bets[..n], m, u)
  }

  function Bettors(bets: seq<Bet>, m: MarketId): set<UserId> {
    set i | 0 <= i < |bets| && Due(bets[i], m) :: bets[i].user
  }

  function SettleBalances(bets: seq<Bet>, balances: map<UserId, Balance>, m: MarketId, r: Resolution)
    : map<UserId, Balance>
  {
    if r.Unresolved? then balances
    else
      map u | u in balances.Keys + Bettors(bets, m) ::
        match DueIndex(bets, m, u)
        case Some(i) => Pay(Row(balances, u), bets[i], r)
        case None => if u in balances then balances[u] else Balance(0, 0)
  }

  /** The terminal transition: only the first one writes. */
  function CloseMarket(k: Market, r: Resolution, now: int): Market {
    if Terminal(k) then k
    else
      match r
      case Unresolved => k
      case Voided => k.(status := CANCELED, outcome := Some(OutcomeInvalid), resolvedAt := Some(now))
      case Resolved(yes) =>
        k.(status := RESOLVED, outcome := Some(if yes then OutcomeYes else OutcomeNo), resolvedAt := Some(now))
  }

  function Settle(db: Db, m: MarketId, r: Resolution, now: int): Db {
    if r.Unresolved? then db
    else
      db.(bets := SettleBets(db.bets, m, r),
          balances := SettleBalances(db.bets, db.balances, m, r),
          markets := if m in db.markets then db.markets[m := CloseMarket(db.markets[m], r, now)] else db.markets)
  }

  // ---------------------------------------------------------------- one due bet per user

  lemma {:induction false} DueIndexUnique(bets: seq<Bet>, m: MarketId, u: UserId, i: nat)
    requires OneBetEach(bets) && i < |bets| && Due(bets[i], m) && bets[i].user == u
    ensures DueIndex(bets, m, u) == Some(i)
  {
    hide DueIndex;
    var j := DueIndex(bets, m, u).value;
    assert bets[j].user == bets[i].user && bets[j].market == bets[i].market && bets[j].mode == bets[i].mode;
  }

  /** Settling leaves no bet of the market due. */
  lemma {:induction false} NothingLeftDue(bets: seq<Bet>, m: MarketId, r: Resolution, n: MarketId)
    requires !r.Unresolved?
    ensures forall i :: 0 <= i < |bets| ==>
              (Due(SettleBets(bets, m, r)[i], n) <==> Due(bets[i], n) && n != m)
    ensures OneBetEach(bets) ==> OneBetEach(SettleBets(bets, m, r))
  {}

  lemma {:induction false} DueIndexAfter(bets: seq<Bet>, m: MarketId, r: Resolution, n: MarketId, u: UserId)
    requires !r.Unresolved? && OneBetEach(bets)
    ensures DueIndex(SettleBets(bets, m, r), n, u) == if n == m then None else DueIndex(bets, n, u)
  {
    hide DueIndex;
    var out := SettleBets(bets, m, r);
    NothingLeftDue(bets, m, r, n);
    if n != m && DueIndex(bets, n, u).Some? {
      DueIndexUnique(out, n, u, DueIndex(bets, n, u).value);
    }
  }

  // ---------------------------------------------------------------- idempotence

  /**
   * Settling a settled market again changes nothing at all, whatever it is said to have resolved
   * to the second time.
   */
  lemma {:induction false} SettleIdempotent(db: Db, m: MarketId, r: Resolution, t: int, r2: Resolution, t2: int)
    requires !r.Unresolved? && OneBetEach(db.bets)
    ensures Settle(Settle(db, m, r, t), m, r2, t2) == Settle(db, m, r, t)
  {
    var a := Settle(db, m, r, t);
    if !r2.Unresolved? {
      NothingLeftDue(db.bets, m, r, m);
      NothingDueNoop(a.bets, a.balances, m, r2);
      assert SettleBets(a.bets, m, r2) == a.bets;
      assert Settle(a, m, r2, t2).markets == a.markets;
    }
  }

  lemma {:induction false} NothingDueNoop(bets: seq<Bet>, balances: map<UserId, Balance>, m: MarketId, r: Resolution)
    requires forall i :: 0 <= i < |bets| ==> !Due(bets[i], m)
    ensures SettleBalances(bets, balances, m, r) == balances
  {
    hide DueIndex;
    assert Bettors(bets, m) == {};
    var out := SettleBalances(bets, balances, m, r);
    forall u | u in balances ensures out[u] == balances[u] {
      assert DueIndex(bets, m, u).None?;
    }
    assert out.Keys == balances.Keys;
  }

  // ---------------------------------------------------------------- confluence

  /** The part of the database that money lives in. */
  datatype Books = Books(bets: seq<Bet>, balances: map<UserId, Balance>)

  function SettleBooks(k: Books, m: MarketId, r: Resolution): Books {
    Books(if r.Unresolved? then k.bets else SettleBets(k.bets, m, r), SettleBalances(k.bets, k.balances, m, r))
  }

  /** Every due bet has a balance row to settle against. */
  ghost predicate Provisioned(k: Books) {
    && OneBetEach(k.bets)
    && forall i :: 0 <= i < |k.bets| && k.bets[i].mode.PAPER? ==> k.bets[i].user in k.balances
  }

  lemma {:induction false} SettleProvisioned(k: Books, m: MarketId, r: Resolution)
    requires Provisioned(k)
    ensures Provisioned(SettleBooks(k, m, r))
    ensures SettleBooks(k, m, r).balances.Keys == k.balances.Keys
  {
    if !r.Unresolved? {
      NothingLeftDue(k.bets, m, r, m);
    }
  }

  lemma {:induction false} BalanceAfter(k: Books, m: MarketId, r: Resolution, u: UserId)
    requires Provisioned(k) && u in k.balances && !r.Unresolved?
    ensures u in SettleBooks(k, m, r).balances
    ensures SettleBooks(k, m, r).balances[u] ==
            match DueIndex(k.bets, m, u)
            case Some(i) => Pay(Some(k.balances[u]), k.bets[i], r)
            case None => k.balances[u]
  {
    hide DueIndex;
  }

  lemma {:induction false} SettleCommutes(k: Books, m: MarketId, r: Resolution, n: MarketId, s: Resolution)
    requires Provisioned(k) && m != n
    ensures SettleBooks(SettleBooks(k, m, r), n, s) == SettleBooks(SettleBooks(k, n, s), m, r)
  {
    hide DueIndex, SettleBalances;
    if !r.Unresolved? && !s.Unresolved? {
      var a, b := SettleBooks(k, m, r), SettleBooks(k, n, s);
      var x, y := SettleBooks(a, n, s), SettleBooks(b, m, r);
      SettleProvisioned(k, m, r);
      SettleProvisioned(k, n, s);
      SettleProvisioned(a, n, s);
      SettleProvisioned(b, m, r);
      assert x.bets == y.bets;
      forall u | u in k.balances ensures x.balances[u] == y.balances[u] {
        BalanceAfter(k, m, r, u);
        BalanceAfter(k, n, s, u);
        BalanceAfter(a, n, s, u);
        BalanceAfter(b, m, r, u);
        DueIndexAfter(k.bets, m, r, n, u);
        DueIndexAfter(k.bets, n, s, m, u);
      }
      assert x.balances == y.balances;
    } else if r.Unresolved? {
      UnresolvedIsNoop(k, m);
      UnresolvedIsNoop(SettleBooks(k, n, s), m);
    } else {
      UnresolvedIsNoop(k, n);
      UnresolvedIsNoop(SettleBooks(k, m, r), n);
    }
  }

  lemma {:induction false} UnresolvedIsNoop(k: Books, m: MarketId)
    ensures SettleBooks(k, m, Unresolved) == k
  {}

  datatype Verdict = Verdict(market: MarketId, resolution: Resolution)

  function SettleAll(k: Books, vs: seq<Verdict>): Books
    decreases |vs|
  {
    if vs == [] then k else SettleAll(SettleBooks(k, vs[0].market, vs[0].resolution), vs[1..])
  }

  ghost predicate DistinctMarkets(vs: seq<Verdict>) {
    forall i, j :: 0 <= i < j < |vs| ==> vs[i].market != vs[j].market
  }

  /** A verdict can be moved to the front past verdicts on other markets. */
  lemma {:induction false} Bubble(k: Books, vs: seq<Verdict>, i: nat)
    requires Provisioned(k) && i < |vs| && DistinctMarkets(vs)
    ensures SettleAll(k, vs) == SettleAll(SettleBooks(k, vs[i].market, vs[i].resolution), vs[..i] + vs[i + 1..])
    decreases i
  {
    if i == 0 {
      assert vs[..0] + vs[1..] == vs[1..];
    } else {
      var v, w := vs[0], vs[i];
      var k1 := SettleBooks(k, v.market, v.resolution);
      SettleProvisioned(k, v.market, v.resolution);
      Bubble(k1, vs[1..], i - 1);
      assert vs[1..][i - 1] == w;
      assert vs[1..][..i - 1] + vs[1..][i..] == (vs[..i] + vs[i + 1..])[1..];
      assert (vs[..i] + vs[i + 1..])[0] == v;
      SettleCommutes(k, v.market, v.resolution, w.market, w.resolution);
    }
  }

  /** Whatever order distinct markets are settled in, the bets and balances come out the same. */
  lemma {:induction false} SettleAllAnyOrder(k: Books, vs: seq<Verdict>, ws: seq<Verdict>)
    requires Provisioned(k) && DistinctMarkets(vs) && DistinctMarkets(ws)
    requires multiset(vs) == multiset(ws)
    ensures SettleAll(k, vs) == SettleAll(k, ws)
    decreases |vs|
  {
    if vs == [] {
      assert |multiset(ws)| == 0;
    } else {
      hide SettleBooks, Provisioned, DistinctMarkets;
      var v := vs[0];
      var i := SameWithout(vs, ws);
      Bubble(k, ws, i);
      SettleProvisioned(k, v.market, v.resolution);
      DistinctWithout(ws, i);
      DistinctWithout(vs, 0);
      assert vs[..0] + vs[1..] == vs[1..];
      SettleAllAnyOrder(SettleBooks(k, v.market, v.resolution), vs[1..], ws[..i] + ws[i + 1..]);
    }
  }

  lemma {:induction false} SameWithout(vs: seq<Verdict>, ws: seq<Verdict>) returns (i: nat)
    requires vs != [] && multiset(vs) == multiset(ws)
    ensures i < |ws| && ws[i] == vs[0]
    ensures multiset(vs[1..]) == multiset(ws[..i] + ws[i + 1..])
  {
    assert vs[0] in multiset(ws);
    i :| 0 <= i < |ws| && ws[i] == vs[0];
    RemoveAt(ws, i);
    RemoveAt(vs, 0);
    assert vs[..0] + vs[1..] == vs[1..];
  }

  lemma {:induction false} DistinctWithout(vs: seq<Verdict>, i: nat)
    requires i < |vs| && DistinctMarkets(vs)
    ensures DistinctMarkets(vs[..i] + vs[i + 1..])
  {
    var rest := vs[..i] + vs[i + 1..];
    forall a, b | 0 <= a < b < |rest| ensures rest[a].market != rest[b].market {
      assert rest[a] == vs[if a < i then a else a + 1] && rest[b] == vs[if b < i then b else b + 1];
    }
  }

  lemma {:induction false} RemoveAt(vs: seq<Verdict>, i: nat)
    requires i < |vs|
    ensures multiset(vs[..i] + vs[i + 1..]) == multiset(vs) - multiset{vs[i]}
  {
    assert vs == vs[..i] + ([vs[i]] + vs[i + 1..]);
    assert multiset(vs) == multiset(vs[..i]) + (multiset{vs[i]} + multiset(vs[i + 1..]));
  }

  lemma {:induction false} RowAfter(
      bets: seq<Bet>, balances: map<UserId, Balance>, m: MarketId, r: Resolution, u: UserId, i: nat)
    requires OneBetEach(bets) && i < |bets| && Due(bets[i], m) && bets[i].user == u && !r.Unresolved?
    ensures Row(SettleBalances(bets, balances, m, r), u) == Some(Pay(Row(balances, u), bets[i], r))
  {
    hide DueIndex;
    DueIndexUnique(bets, m, u, i);
    assert u in Bettors(bets, m);
  }

  /**
   * Without a balance row the order would show: the row is seeded by whichever market comes first.
   * A user with a winning and a losing bet ends up with a different balance each way round.
   */
  lemma {:induction false} MissingRowNotConfluent()
    ensures exists k: Books ::
              OneBetEach(k.bets) && !Provisioned(k)
              && SettleBooks(SettleBooks(k, 0, Resolved(true)), 1, Resolved(false))
                 != SettleBooks(SettleBooks(k, 1, Resolved(false)), 0, Resolved(true))
  {
    hide SettleBalances, RoundHalfUp;
    var b := Bet(0, 0, PAPER, BuyYes, 100, 5000, PENDING, Undecided, None, None, None);
    var k := Books([b, b.(market := 1)], map[]);
    RoundUnique(100 * ONE, 5000, 200);
    var w, l := Resolved(true), Resolved(false);
    assert k.bets[0].market != k.bets[1].market;
    NothingLeftDue(k.bets, 0, w, 1);
    NothingLeftDue(k.bets, 1, l, 0);
    var x, y := SettleBooks(k, 0, w), SettleBooks(k, 1, l);
    RowAfter(k.bets, k.balances, 0, w, 0, 0);
    RowAfter(x.bets, x.balances, 1, l, 0, 1);
    RowAfter(k.bets, k.balances, 1, l, 0, 1);
    RowAfter(y.bets, y.balances, 0, w, 0, 0);
    assert Gain(k.bets[0], w) == 100 && Gain(k.bets[1], l) == -100;
    assert Row(SettleBooks(x, 1, l).balances, 0) == Some(Balance(0, -100));
    assert Row(SettleBooks(y, 0, w).balances, 0) == Some(Balance(100, -100));
    assert k.bets[0].user !in k.balances;
  }
}
