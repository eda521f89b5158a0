/** The deck refreshers: other writers of the market rows, on the same steps. */
module DeckRefresh {
  import opened Options
  import opened Tables
  import opened Runs
  import opened Lifecycle
  import opened Store
  import opened HedgeIndex
  import opened Seqs

  function Upserts(deck: seq<Quote>): seq<Step> { seq(|deck|, i requires 0 <= i < |deck| => Upsert(deck[i])) }

  /** Rows that were there keep status, outcome and time; rows that were not are OPEN. */
  ghost predicate VerdictsUntouched(was: Db, db: Db) {
    && (forall m :: m in was.markets ==> m in db.markets && SameVerdict(db.markets[m], was.markets[m]))
    && (forall m :: m in db.markets && m !in was.markets ==> db.markets[m].status.OPEN? && db.markets[m].outcome.None?)
  }

  method RefreshDeck(db: Database, deck: seq<Quote>, rejected: set<PolyId>, now: int)
    returns (upserted: nat, servable: nat)
    requires Constraints(db.Snapshot())
    modifies db
    ensures Constraints(db.Snapshot())
    ensures db.Snapshot() ==
            Run(old(db.Snapshot()), Upserts(deck) + (if rejected == {} then [] else [Stamp(rejected, now)]))
    ensures VerdictsUntouched(old(db.Snapshot()), db.Snapshot())
    ensures upserted == |deck|
    ensures servable == |set i: nat | i < |deck| && deck[i].deadline > now + 5 * 60_000|
  {
    hide Apply, Run, Constraints, VerdictsUntouched;
    ghost var was := db.Snapshot();
    Untouched(was);
    RunEmpty(was);
    assert Upserts(deck[..0]) == [];
    var i := 0;
    servable := 0;
    while i < |deck|
      invariant 0 <= i <= |deck| && Constraints(db.Snapshot())
      invariant db.Snapshot() == Run(was, Upserts(deck[..i]))
      invariant VerdictsUntouched(was, db.Snapshot())
      invariant servable == |set j: nat | j < i && deck[j].deadline > now + DECK_MIN_LEAD_MS|
    {
      ghost var mid := db.Snapshot();
      StepKeepsConstraints(mid, Upsert(deck[i]));
      UpsertLeavesVerdicts(was, mid, deck[i]);
      assert Upserts(deck[..i + 1]) == Upserts(deck[..i]) + [Upsert(deck[i])];
      RunLast(was, Upserts(deck[..i]), Upsert(deck[i]));
      CountOneMore(deck, i, now);
      db.Perform(Upsert(deck[i]));
      if deck[i].deadline > now + DECK_MIN_LEAD_MS {
        servable := servable + 1;
      }
      i := i + 1;
    }
    assert deck[..i] == deck;
    if rejected != {} {
      StepKeepsConstraints(db.Snapshot(), Stamp(rejected, now));
      StampLeavesVerdicts(was, db.Snapshot(), rejected, now);
      RunLast(was, Upserts(deck), Stamp(rejected, now));
      db.Perform(Stamp(rejected, now));
    } else {
      assert Upserts(deck) + [] == Upserts(deck);
    }
    upserted := |deck|;
  }

  lemma {:induction false} Untouched(db: Db)
    ensures VerdictsUntouched(db, db)
  {}

  lemma {:induction false} RunEmpty(db: Db)
    ensures Run(db, []) == db
  {}

  lemma {:induction false} RunLast(db: Db, steps: seq<Step>, s: Step)
    ensures Run(db, steps + [s]) == Apply(Run(db, steps), s)
  {
    hide Apply;
    RunConcat(db, steps, [s]);
    assert [s][1..] == [];
    assert Run(Run(db, steps), [s]) == Run(Apply(Run(db, steps), s), []);
  }

  lemma {:induction false} CountOneMore(deck: seq<Quote>, i: nat, now: int)
    requires i < |deck|
    ensures var late := deck[i].deadline > now + DECK_MIN_LEAD_MS;
            |set j: nat | j < i + 1 && deck[j].deadline > now + DECK_MIN_LEAD_MS| ==
            |set j: nat | j < i && deck[j].deadline > now + DECK_MIN_LEAD_MS| + (if late then 1 else 0)
  {
    var a := set j: nat | j < i && deck[j].deadline > now + DECK_MIN_LEAD_MS;
    var b := set j: nat | j < i + 1 && deck[j].deadline > now + DECK_MIN_LEAD_MS;
    assert b == if deck[i].deadline > now + DECK_MIN_LEAD_MS then a + {i} else a;
  }

  lemma {:induction false} UpsertLeavesVerdicts(was: Db, db: Db, q: Quote)
    requires Constraints(db) && VerdictsUntouched(was, db)
    ensures VerdictsUntouched(was, Apply(db, Upsert(q)))
  {
    hide RowOf;
  }

  lemma {:induction false} StampLeavesVerdicts(was: Db, db: Db, polys: set<PolyId>, now: int)
    requires VerdictsUntouched(was, db)
    ensures VerdictsUntouched(was, Apply(db, Stamp(polys, now)))
  {}

  // ---------------------------------------------------------------- stale books

  datatype BookVerdict = NoRead | Untradable | Fresh(book: Book)

  /** What the depth read said of a row: nothing, a husk, or two executable prices. */
  function BookVerdictOf(m: MarketId, depths: map<MarketId, Depth>): BookVerdict {
    if m !in depths then NoRead
    else
      var d := depths[m];
      if !d.tradable || d.book.yesEffBp.None? || d.book.noEffBp.None? then Untradable else Fresh(d.book)
  }

  function Untradables(ids: seq<MarketId>, depths: map<MarketId, Depth>): set<MarketId> {
    set m | m in ids && BookVerdictOf(m, depths).Untradable?
  }

  function FreshCount(ids: seq<MarketId>, depths: map<MarketId, Depth>): nat {
    if ids == [] then 0
    else FreshCount(ids[..|ids| - 1], depths) + (if BookVerdictOf(ids[|ids| - 1], depths).Fresh? then 1 else 0)
  }

  /** Rows in `done` that were read successfully have their new book; all else is as before. */
  ghost predicate FreshWritten(
      before: map<MarketId, Market>, now: map<MarketId, Market>, done: set<MarketId>, depths: map<MarketId, Depth>)
  {
    && now.Keys == before.Keys
    && forall m :: m in before ==>
         now[m] == if m in done && BookVerdictOf(m, depths).Fresh?
                   then before[m].(book := BookVerdictOf(m, depths).book) else before[m]
  }

  /** The read brought two executable prices. */
  predicate Readable(m: MarketId, depths: map<MarketId, Depth>) {
    m in depths && depths[m].tradable && depths[m].book.yesEffBp != None && depths[m].book.noEffBp != None
  }

  /** The read brought an answer, but not two executable prices. */
  predicate Husk(m: MarketId, depths: map<MarketId, Depth>) { m in depths && !Readable(m, depths) }

  /**
   * Picked rows that were read carry what was read, or no offer at all where that was a husk; rows not
   * picked or not read, and every other column, are untouched.
   */
  ghost predicate VerdictsWritten(
      before: map<MarketId, Market>, after: map<MarketId, Market>, picked: seq<MarketId>,
      depths: map<MarketId, Depth>, now: int)
  {
    after.Keys == before.Keys && forall m :: m in before ==> VerdictWritten(before[m], after[m], m, picked, depths, now)
  }

  ghost predicate VerdictWritten(
      before: Market, after: Market, m: MarketId, picked: seq<MarketId>, depths: map<MarketId, Depth>, now: int)
  {
    && after == before.(book := after.book)
    && (m !in picked || m !in depths ==> after == before)
    && (m in picked && Readable(m, depths) ==> after.book == depths[m].book)
    && (m in picked && Husk(m, depths) ==> NoOffer(after.book, now))
  }

  lemma {:induction false} VerdictExactly(m: MarketId, depths: map<MarketId, Depth>)
    ensures BookVerdictOf(m, depths).Fresh? <==> Readable(m, depths)
    ensures BookVerdictOf(m, depths).Fresh? ==> BookVerdictOf(m, depths).book == depths[m].book
    ensures BookVerdictOf(m, depths).Untradable? <==> Husk(m, depths)
  {}

  function ReadableAt(picked: seq<MarketId>, depths: map<MarketId, Depth>): set<nat> {
    set i: nat | i < |picked| && Readable(picked[i], depths)
  }

  lemma {:induction false} FreshCountExactly(picked: seq<MarketId>, depths: map<MarketId, Depth>)
    ensures FreshCount(picked, depths) == |ReadableAt(picked, depths)|
  {
    hide BookVerdictOf, Readable;
    if picked != [] {
      var n := |picked| - 1;
      FreshCountExactly(picked[..n], depths);
      VerdictExactly(picked[n], depths);
      var a := ReadableAt(picked[..n], depths);
      assert forall i :: 0 <= i < n ==> picked[..n][i] == picked[i];
      assert ReadableAt(picked, depths) == if Readable(picked[n], depths) then a + {n} else a;
    } else {
      assert ReadableAt(picked, depths) == {};
    }
  }

  /** The pass's own sets and counts, in terms of what was read. */
  lemma {:induction false} CountsExactly(
      was: map<MarketId, Market>, picked: seq<MarketId>, depths: map<MarketId, Depth>)
    ensures FreshCount(picked, depths) == |ReadableAt(picked, depths)|
    ensures Untradables(picked, depths) * was.Keys == set m | m in picked && m in was && Husk(m, depths)
  {
    hide BookVerdictOf, Husk, Readable;
    FreshCountExactly(picked, depths);
    forall m | m in picked ensures BookVerdictOf(m, depths).Untradable? <==> Husk(m, depths) {
      VerdictExactly(m, depths);
    }
  }

  /** An update of a row that has vanished throws and ends the pass before anything is stamped. */
  method RefreshStaleBooks(db: Database, picked: seq<MarketId>, depths: map<MarketId, Depth>, now: int)
    returns (ok: bool, renewed: nat, stamped: nat)
    modifies db`markets
    ensures ok <==> forall m :: m in picked && m !in old(db.markets) ==> !Readable(m, depths)
    ensures ok ==> VerdictsWritten(old(db.markets), db.markets, picked, depths, now)
    ensures ok ==> renewed == |ReadableAt(picked, depths)|
    ensures ok ==> stamped == |set m | m in picked && m in old(db.markets) && Husk(m, depths)|
    ensures !ok ==>
              exists k: nat ::
                && k < |picked| && picked[k] !in old(db.markets) && Readable(picked[k], depths)
                && FreshWritten(old(db.markets), db.markets, Elements(picked[..k]), depths)
  {
    hide *;
    var rejects: set<MarketId> := {};
    ghost var was := db.markets;
    renewed, stamped := 0, 0;
    var i := 0;
    NothingRead(was, depths);
    CountsExactly(was, picked, depths);
    assert picked[..0] == [];
    while i < |picked|
      invariant 0 <= i <= |picked|
      invariant FreshWritten(was, db.markets, Elements(picked[..i]), depths)
      invariant rejects == Untradables(picked[..i], depths)
      invariant renewed == FreshCount(picked[..i], depths)
      invariant forall m :: m in picked[..i] && m !in was ==> !Readable(m, depths)
    {
      var m := picked[i];
      assert picked[..i + 1] == picked[..i] + [m];
      OneMoreRead(was, db.markets, picked[..i], m, depths);
      VerdictExactly(m, depths);
      match BookVerdictOf(m, depths) {
        case NoRead =>
        case Untradable =>
          rejects := rejects + {m};
        case Fresh(book) =>
          if m !in db.markets {
            assert m in picked;
            return false, renewed, 0;
          }
          db.markets := db.markets[m := db.markets[m].(book := book)];
          renewed := renewed + 1;
      }
      i := i + 1;
    }
    assert picked[..i] == picked;
    AllRead(was, db.markets, picked, depths, now);
    if rejects != {} {
      stamped := |rejects * db.markets.Keys|;
      db.markets := StampRows(db.markets, rejects, now);
    }
    return true, renewed, stamped;
  }

  function StampRows(markets: map<MarketId, Market>, ids: set<MarketId>, now: int): map<MarketId, Market> {
    map m | m in markets :: if m in ids then markets[m].(book := StampBook(now)) else markets[m]
  }

  lemma {:induction false} NothingRead(was: map<MarketId, Market>, depths: map<MarketId, Depth>)
    ensures FreshWritten(was, was, Elements([]), depths)
    ensures Untradables([], depths) == {} && FreshCount([], depths) == 0
  {}

  lemma {:induction false} OneMoreRead(
      was: map<MarketId, Market>, now: map<MarketId, Market>, ids: seq<MarketId>, m: MarketId,
      depths: map<MarketId, Depth>)
    requires FreshWritten(was, now, Elements(ids), depths)
    ensures now.Keys == was.Keys
    ensures FreshCount(ids + [m], depths) ==
            FreshCount(ids, depths) + (if BookVerdictOf(m, depths).Fresh? then 1 else 0)
    ensures Untradables(ids + [m], depths) ==
            Untradables(ids, depths) + (if BookVerdictOf(m, depths).Untradable? then {m} else {})
    ensures match BookVerdictOf(m, depths)
            case Fresh(b) =>
              m in now ==> FreshWritten(was, now[m := now[m].(book := b)], Elements(ids + [m]), depths)
            case _ => FreshWritten(was, now, Elements(ids + [m]), depths)
  {
    hide BookVerdictOf;
    assert (ids + [m])[..|ids|] == ids;
    assert Elements(ids + [m]) == Elements(ids) + {m};
  }

  lemma {:induction false} AllRead(
      was: map<MarketId, Market>, markets: map<MarketId, Market>, picked: seq<MarketId>,
      depths: map<MarketId, Depth>, now: int)
    requires FreshWritten(was, markets, Elements(picked), depths)
    ensures markets.Keys == was.Keys
    ensures VerdictsWritten(was, StampRows(markets, Untradables(picked, depths), now), picked, depths, now)
    ensures Untradables(picked, depths) == {} ==> VerdictsWritten(was, markets, picked, depths, now)
    ensures Untradables(picked, depths) == {} ==> |Untradables(picked, depths) * was.Keys| == 0
  {
    hide BookVerdictOf, Readable, Husk, NoOffer, StampBook, StampRows, VerdictWritten;
    var after := StampRows(markets, Untradables(picked, depths), now);
    forall m | m in was
      ensures m in after && VerdictWritten(was[m], after[m], m, picked, depths, now)
      ensures Untradables(picked, depths) == {} ==> VerdictWritten(was[m], markets[m], m, picked, depths, now)
    {
      StampedRow(markets, Untradables(picked, depths), now, m);
      RowRead(was[m], markets[m], after[m], m, picked, depths, now);
    }
    SameKeys(markets, Untradables(picked, depths), now);
  }

  lemma {:induction false} SameKeys(markets: map<MarketId, Market>, ids: set<MarketId>, now: int)
    ensures StampRows(markets, ids, now).Keys == markets.Keys
  {}

  lemma {:induction false} StampedRow(markets: map<MarketId, Market>, ids: set<MarketId>, now: int, m: MarketId)
    requires m in markets
    ensures m in StampRows(markets, ids, now)
    ensures StampRows(markets, ids, now)[m] ==
            if m in ids then markets[m].(book := StampBook(now)) else markets[m]
  {}

  lemma {:induction false} RowRead(
      was: Market, mid: Market, after: Market, m: MarketId, picked: seq<MarketId>,
      depths: map<MarketId, Depth>, now: int)
    requires mid == if m in picked && BookVerdictOf(m, depths).Fresh? then was.(book := BookVerdictOf(m, depths).book)
                    else was
    requires after == if m in Untradables(picked, depths) then mid.(book := StampBook(now)) else mid
    ensures VerdictWritten(was, after, m, picked, depths, now)
    ensures Untradables(picked, depths) == {} ==> VerdictWritten(was, mid, m, picked, depths, now)
  {
    hide BookVerdictOf;
    VerdictExactly(m, depths);
    assert m in Untradables(picked, depths) <==> m in picked && BookVerdictOf(m, depths).Untradable?;
  }
}
