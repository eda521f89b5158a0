/** The stock deck's re-rank: filter, sort, take the top of the pool, and move the flags in two updates. */
module StockDeck {
  import opened Options
  import opened Seqs

  const STOCK_DECK_POOL := 150

  type AssetId = nat

  datatype Asset = Asset(
    halted: bool, priceCents: Option<int>, liquidityCents: Option<int>, mcapMillions: Option<int>,
    deckEligible: bool)

  predicate IsDeckEligible(a: Asset) { !a.halted && a.priceCents.Some? && a.priceCents.value > 0 }

  /** deckRank(a, b) < 0: deeper pool first, then larger market cap; missing numbers last. */
  predicate Outranks(a: Asset, b: Asset) {
    var la, lb := a.liquidityCents.GetOr(-1), b.liquidityCents.GetOr(-1);
    la > lb || (la == lb && a.mcapMillions.GetOr(-1) > b.mcapMillions.GetOr(-1))
  }

  type Rows = map<AssetId, Asset>

  /** No later id outranks an earlier one. */
  ghost predicate Ranked(rows: Rows, ids: seq<AssetId>)
    requires forall i :: i in ids ==> i in rows
  {
    forall j, k :: 0 <= j < k < |ids| ==> !Outranks(rows[ids[k]], rows[ids[j]])
  }

  function Insert(rows: Rows, ids: seq<AssetId>, x: AssetId): (out: seq<AssetId>)
    requires x in rows && forall i :: i in ids ==> i in rows
    ensures multiset(out) == multiset(ids) + multiset{x}
  {
    if ids == [] then [x]
    else if Outranks(rows[x], rows[ids[|ids| - 1]]) then
      assert ids == ids[..|ids| - 1] + [ids[|ids| - 1]];
      Insert(rows, ids[..|ids| - 1], x) + [ids[|ids| - 1]]
    else ids + [x]
  }

  /** A stable sort by deckRank. */
  function SortByRank(rows: Rows, ids: seq<AssetId>): (out: seq<AssetId>)
    requires forall i :: i in ids ==> i in rows
    ensures multiset(out) == multiset(ids)
  {
    if ids == [] then []
    else
      assert ids == ids[..|ids| - 1] + [ids[|ids| - 1]];
      var front := SortByRank(rows, ids[..|ids| - 1]);
      assert forall i :: i in front ==> i in multiset(front);
      Insert(rows, front, ids[|ids| - 1])
  }

  function FilterEligible(rows: Rows, ids: seq<AssetId>): (out: seq<AssetId>)
    requires forall i :: i in ids ==> i in rows
    ensures forall i :: i in out <==> i in ids && IsDeckEligible(rows[i])
  {
    if ids == [] then []
    else
      var n := |ids| - 1;
      FilterEligible(rows, ids[..n]) + (if IsDeckEligible(rows[ids[n]]) then [ids[n]] else [])
  }

  function Winners(rows: Rows, ids: seq<AssetId>): seq<AssetId>
    requires forall i :: i in ids ==> i in rows
  {
    var sorted := SortByRank(rows, FilterEligible(rows, ids));
    if |sorted| < STOCK_DECK_POOL then sorted else sorted[..STOCK_DECK_POOL]
  }

  function SetFlags(rows: Rows, winners: set<AssetId>): Rows {
    map i | i in rows :: if i in winners then rows[i].(deckEligible := true) else rows[i]
  }

  function ClearOthers(rows: Rows, winners: set<AssetId>): Rows {
    map i | i in rows :: if i in winners then rows[i] else rows[i].(deckEligible := false)
  }

  function Flagged(rows: Rows): set<AssetId> { set i | i in rows && rows[i].deckEligible }

  function EligibleIds(rows: Rows): set<AssetId> { set i | i in rows && IsDeckEligible(rows[i]) }

  /** The flags are a top STOCK_DECK_POOL: as many as there can be, and outranked by nobody outside. */
  ghost predicate IsTop(rows: Rows, flags: set<AssetId>) {
    && flags <= EligibleIds(rows)
    && |flags| == (if |EligibleIds(rows)| < STOCK_DECK_POOL then |EligibleIds(rows)| else STOCK_DECK_POOL)
    && forall i, w :: i in EligibleIds(rows) && i !in flags && w in flags ==> !Outranks(rows[i], rows[w])
  }

  lemma {:induction false} FilterDistinct(rows: Rows, ids: seq<AssetId>)
    requires Distinct(ids) && forall i :: i in ids ==> i in rows
    ensures Distinct(FilterEligible(rows, ids))
  {
    if ids != [] {
      var n := |ids| - 1;
      FilterDistinct(rows, ids[..n]);
      assert ids[n] !in ids[..n];
    }
  }

  lemma {:induction false} InsertRanked(rows: Rows, ids: seq<AssetId>, x: AssetId)
    requires x in rows && forall i :: i in ids ==> i in rows
    requires Ranked(rows, ids)
    ensures (forall i :: i in Insert(rows, ids, x) ==> i in rows) && Ranked(rows, Insert(rows, ids, x))
  {
    InsertMembers(rows, ids, x);
    if ids != [] {
      var n := |ids| - 1;
      if Outranks(rows[x], rows[ids[n]]) {
        InsertMembers(rows, ids[..n], x);
        InsertRanked(rows, ids[..n], x);
        BehindAll(rows, ids, x);
      } else {
        AppendRanked(rows, ids, x);
      }
    }
  }

  lemma {:induction false} AppendRanked(rows: Rows, ids: seq<AssetId>, x: AssetId)
    requires x in rows && ids != [] && forall i :: i in ids ==> i in rows
    requires Ranked(rows, ids) && !Outranks(rows[x], rows[ids[|ids| - 1]])
    ensures Ranked(rows, ids + [x])
  {
    var last := ids[|ids| - 1];
    forall j | 0 <= j < |ids| ensures !Outranks(rows[x], rows[ids[j]]) {
      assert j < |ids| - 1 ==> !Outranks(rows[last], rows[ids[j]]);
    }
  }

  /** The last id stays last when one that outranks it is inserted before it. */
  lemma {:induction false} BehindAll(rows: Rows, ids: seq<AssetId>, x: AssetId)
    requires x in rows && ids != [] && forall i :: i in ids ==> i in rows
    requires Ranked(rows, ids) && Outranks(rows[x], rows[ids[|ids| - 1]])
    requires var front := Insert(rows, ids[..|ids| - 1], x);
             (forall i :: i in front ==> i in rows) && Ranked(rows, front)
    ensures var front := Insert(rows, ids[..|ids| - 1], x);
            (forall i :: i in front + [ids[|ids| - 1]] ==> i in rows) && Ranked(rows, front + [ids[|ids| - 1]])
  {
    hide Insert;
    var n := |ids| - 1;
    var front, last := Insert(rows, ids[..n], x), ids[n];
    InsertMembers(rows, ids[..n], x);
    forall j | 0 <= j < |front| ensures !Outranks(rows[last], rows[front[j]]) {
      assert front[j] in front;
      if front[j] != x {
        var k :| 0 <= k < n && ids[..n][k] == front[j];
        assert ids[k] == front[j];
      }
    }
  }

  lemma {:induction false} InsertMembers(rows: Rows, ids: seq<AssetId>, x: AssetId)
    requires x in rows && forall i :: i in ids ==> i in rows
    ensures forall i :: i in Insert(rows, ids, x) <==> i == x || i in ids
  {
    var out := Insert(rows, ids, x);
    assert forall i :: i in out <==> i in multiset(out);
    assert forall i :: i in ids <==> i in multiset(ids);
  }

  lemma {:induction false} SortRanked(rows: Rows, ids: seq<AssetId>)
    requires forall i :: i in ids ==> i in rows
    ensures forall i :: i in SortByRank(rows, ids) <==> i in ids
    ensures Ranked(rows, SortByRank(rows, ids))
  {
    var out := SortByRank(rows, ids);
    assert forall i :: i in out <==> i in multiset(out);
    assert forall i :: i in ids <==> i in multiset(ids);
    if ids != [] {
      SortRanked(rows, ids[..|ids| - 1]);
      InsertRanked(rows, SortByRank(rows, ids[..|ids| - 1]), ids[|ids| - 1]);
    }
  }

  /** Whatever order the rows are read in, the winners are a top of the pool. */
  lemma {:induction false} WinnersAreTop(rows: Rows, ids: seq<AssetId>)
    requires Distinct(ids) && Elements(ids) == rows.Keys
    ensures (forall i :: i in ids ==> i in rows) && IsTop(rows, Elements(Winners(rows, ids)))
    ensures |Winners(rows, ids)| == |Elements(Winners(rows, ids))|
  {
    assert forall i :: i in ids <==> i in Elements(ids);
    var eligible := FilterEligible(rows, ids);
    FilterDistinct(rows, ids);
    SortRanked(rows, eligible);
    Rearranged(eligible, SortByRank(rows, eligible));
    TopOfRanked(rows, SortByRank(rows, eligible));
  }

  /** The first STOCK_DECK_POOL of a ranked list of the eligible ids are a top. */
  lemma {:induction false} TopOfRanked(rows: Rows, sorted: seq<AssetId>)
    requires Distinct(sorted) && (forall i :: i in sorted <==> i in rows && IsDeckEligible(rows[i]))
    requires Ranked(rows, sorted)
    ensures var won := if |sorted| < STOCK_DECK_POOL then sorted else sorted[..STOCK_DECK_POOL];
            IsTop(rows, Elements(won)) && |won| == |Elements(won)|
  {
    var won := if |sorted| < STOCK_DECK_POOL then sorted else sorted[..STOCK_DECK_POOL];
    assert won == sorted[..|won|];
    assert Elements(sorted) == EligibleIds(rows);
    DistinctSize(sorted);
    DistinctSize(won);
    assert forall k :: 0 <= k < |won| ==> sorted[k] == won[k] && won[k] in Elements(won);
    forall i, w | i in EligibleIds(rows) && i !in Elements(won) && w in Elements(won)
      ensures !Outranks(rows[i], rows[w])
    {
      var k :| 0 <= k < |sorted| && sorted[k] == i;
      var j :| 0 <= j < |won| && won[j] == w;
      assert sorted[j] == w;
    }
  }

  /**
   * In the rows' own numbers: no eligible row left out has a deeper pool than one that is in, or the
   * same depth and a larger market cap; and one with a pool is never left out for one without.
   */
  lemma {:induction false} TopIsDeepest(rows: Rows, flags: set<AssetId>, i: AssetId, w: AssetId)
    requires IsTop(rows, flags) && i in Dealable(rows) && i !in flags && w in flags
    ensures w in rows
    ensures rows[i].liquidityCents.Some? && rows[i].liquidityCents.value >= 0 ==>
              rows[w].liquidityCents.Some? && rows[w].liquidityCents.value >= rows[i].liquidityCents.value
    ensures rows[i].liquidityCents == rows[w].liquidityCents
            && rows[i].mcapMillions.Some? && rows[i].mcapMillions.value >= 0 ==>
              rows[w].mcapMillions.Some? && rows[w].mcapMillions.value >= rows[i].mcapMillions.value
  {}

  /** The assets that trade and have a price. */
  function Dealable(rows: Rows): set<AssetId> {
    set i | i in rows && rows[i].halted == false && rows[i].priceCents != None && 0 < rows[i].priceCents.value
  }

  /** Who is in: only assets that trade and have a price, 150 of them or all there are. */
  lemma {:induction false} TopIsFull(rows: Rows, flags: set<AssetId>)
    requires IsTop(rows, flags)
    ensures flags <= Dealable(rows)
    ensures |flags| == if |Dealable(rows)| < 150 then |Dealable(rows)| else 150
  {
    assert EligibleIds(rows) == Dealable(rows);
  }

  /** The two updates leave exactly the winners flagged, and in between only too many, never too few. */
  lemma {:induction false} FlagsMove(rows: Rows, winners: set<AssetId>)
    requires winners <= rows.Keys
    ensures Flagged(SetFlags(rows, winners)) == Flagged(rows) + winners
    ensures Flagged(ClearOthers(SetFlags(rows, winners), winners)) == winners
    ensures EligibleIds(ClearOthers(SetFlags(rows, winners), winners)) == EligibleIds(rows)
  {}

  class StockTable {
    var rows: Rows

    constructor (rows: Rows)
      ensures this.rows == rows
    {
      this.rows := rows;
    }

    method Rerank() returns (eligible: nat)
      modifies this
      ensures rows.Keys == old(rows).Keys
      ensures forall i :: i in rows ==> rows[i].(deckEligible := false) == old(rows)[i].(deckEligible := false)
      ensures IsTop(old(rows), Flagged(rows)) && eligible == |Flagged(rows)|
      ensures Flagged(rows) <= Dealable(old(rows))
      ensures eligible == if |Dealable(old(rows))| < 150 then |Dealable(old(rows))| else 150
    {
      hide Winners, IsDeckEligible, Outranks, Distinct;
      var ids := Pick(rows.Keys, |rows.Keys|);
      assert forall i :: i in ids <==> i in Elements(ids);
      var won := Winners(rows, ids);
      WinnersAreTop(rows, ids);
      FlagsMove(rows, Elements(won));
      rows := SetFlags(rows, Elements(won));
      rows := ClearOthers(rows, Elements(won));
      eligible := |won|;
      TopIsFull(old(rows), Flagged(rows));
    }
  }
}
