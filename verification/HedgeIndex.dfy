/** The hedge index: chunked write transactions and the S2 affirm, reject and demote pass. */
module HedgeIndex {
  import opened Options
  import opened Tables
  import opened Runs
  import opened Store

  const WRITE_CHUNK := 100
  const S2_SIDE_FLOOR_BP := 200
  const S2_SIDE_CEIL_BP := 9_800

  /** One pending write: the market row, and its meta enrichment. */
  datatype Write = Write(quote: Quote, s2Eligible: Option<bool>)

  function IdOf(db: Db, p: PolyId): Option<MarketId> { RowOf(db.markets, p, db.nextId) }

  function WriteOne(db: Db, w: Write): Db {
    var up := UpsertMarket(db, w.quote);
    match IdOf(up, w.quote.poly)
    case Some(m) => UpsertMeta(up, m, w.s2Eligible)
    case None => up
  }

  /** The sequential write loop that flushing in chunks stands for. */
  function WriteAll(db: Db, ws: seq<Write>): Db {
    if ws == [] then db else WriteOne(WriteAll(db, ws[..|ws| - 1]), ws[|ws| - 1])
  }

  /** How many writes are committed when write number `fault` throws. */
  function Committed(n: nat, fault: Option<nat>): (k: nat)
    ensures k <= n
  {
    if fault.Some? && fault.value < n then fault.value / WRITE_CHUNK * WRITE_CHUNK else n
  }

  predicate IdsMatch(db: Db, ids: seq<MarketId>, ws: seq<Write>) {
    && |ids| == |ws|
    && forall j :: 0 <= j < |ids| ==> ids[j] in db.markets && db.markets[ids[j]].poly == ws[j].quote.poly
  }

  // ---------------------------------------------------------------- one write

  lemma {:induction false} WriteOneRow(db: Db, w: Write)
    requires Constraints(db)
    ensures var out := WriteOne(db, w);
            var id := IdOf(out, w.quote.poly);
            && Constraints(out) && id.Some? && id.value in out.metas
            && out.markets[id.value].book == w.quote.book
            && out.markets[id.value].deadline == w.quote.deadline
            && out.markets[id.value].startsAt == w.quote.startsAt
            && out.markets[id.value].poly == w.quote.poly
            && (id.value in db.markets ==>
                  out.markets[id.value] == db.markets[id.value].(
                    deadline := w.quote.deadline, startsAt := w.quote.startsAt, book := w.quote.book))
            && (id.value !in db.markets ==>
                  && out.markets[id.value].status == OPEN && out.markets[id.value].outcome == None
                  && out.markets[id.value].resolvedAt == None && out.markets[id.value].source == POLYMARKET)
            && (w.s2Eligible.Some? ==> out.metas[id.value].s2Eligible == w.s2Eligible.value)
            && (w.s2Eligible.None? && id.value in db.metas ==> out.metas[id.value] == db.metas[id.value])
            && (forall m :: m in db.markets ==> m in out.markets && out.markets[m].poly == db.markets[m].poly)
            && (forall m :: m in db.metas && m != id.value ==> m in out.metas && out.metas[m] == db.metas[m])
            && (forall m :: m in out.metas && m != id.value ==> m in db.metas)
            && (forall m :: m in out.markets && m != id.value ==> m in db.markets && out.markets[m] == db.markets[m])
  {
    hide RowOf, UpsertMarket, Constraints;
    var id := UpsertedRow(db, w.quote);
    UpsertConstraints(db, w.quote);
    MetaConstraints(UpsertMarket(db, w.quote), id, w.s2Eligible);
  }

  lemma {:induction false} MetaConstraints(db: Db, m: MarketId, s2: Option<bool>)
    requires Constraints(db)
    ensures Constraints(UpsertMeta(db, m, s2))
  {}

  /** After an upsert the row is found under its key, with the quote's numbers; others are untouched. */
  lemma {:induction false} UpsertedRow(db: Db, q: Quote) returns (id: MarketId)
    requires Constraints(db)
    ensures var up := UpsertMarket(db, q);
            && IdOf(up, q.poly) == Some(id) && id in up.markets
            && up.markets[id].poly == q.poly && up.markets[id].book == q.book
            && up.markets[id].deadline == q.deadline && up.markets[id].startsAt == q.startsAt
            && up.metas == db.metas
            && (id in db.markets ==>
                  up.markets[id] == db.markets[id].(deadline := q.deadline, startsAt := q.startsAt, book := q.book))
            && (id !in db.markets ==>
                  && up.markets[id].status == OPEN && up.markets[id].outcome == None
                  && up.markets[id].resolvedAt == None && up.markets[id].source == POLYMARKET)
            && (forall m :: m in db.markets ==> m in up.markets && up.markets[m].poly == db.markets[m].poly)
            && (forall m :: m in up.markets && m != id ==> m in db.markets && up.markets[m] == db.markets[m])
  {
    hide RowOf, Constraints;
    FreshId(db);
    var up := UpsertMarket(db, q);
    UpsertConstraints(db, q);
    id := RowOf(db.markets, q.poly, db.nextId).GetOr(db.nextId);
    KeyFound(up, id);
  }

  lemma {:induction false} FreshId(db: Db)
    requires Constraints(db)
    ensures db.nextId !in db.markets
  {}

  lemma {:induction false} KeyFound(db: Db, m: MarketId)
    requires Constraints(db) && m in db.markets
    ensures IdOf(db, db.markets[m].poly) == Some(m)
  {
    hide RowOf;
    var r := IdOf(db, db.markets[m].poly);
    assert m < db.nextId;
  }

  lemma {:induction false} WriteOneKeepsIds(db: Db, w: Write, ids: seq<MarketId>, ws: seq<Write>)
    requires Constraints(db) && IdsMatch(db, ids, ws)
    ensures var out := WriteOne(db, w);
            && Constraints(out) && IdOf(out, w.quote.poly).Some?
            && IdsMatch(out, ids + [IdOf(out, w.quote.poly).value], ws + [w])
  {
    hide WriteOne, RowOf;
    WriteOneRow(db, w);
  }

  /** The writes of one transaction are steps like any others. */
  lemma {:induction false} WriteOneIsSteps(db: Db, w: Write)
    requires Constraints(db)
    ensures IdOf(UpsertMarket(db, w.quote), w.quote.poly).Some?
    ensures WriteOne(db, w) ==
            Run(db, [Upsert(w.quote), WriteMeta(IdOf(UpsertMarket(db, w.quote), w.quote.poly).value, w.s2Eligible)])
  {
    hide RowOf, IdOf, UpsertMarket, UpsertMeta, Constraints, CanBet, Referred, Deletable, AcceptStake;
    var up := UpsertMarket(db, w.quote);
    var id := UpsertedRow(db, w.quote);
    var s, t := Upsert(w.quote), WriteMeta(id, w.s2Eligible);
    assert [s, t][1..] == [t] && [t][1..] == [];
    assert Run(up, [t]) == Run(Apply(up, t), []);
  }

  // ---------------------------------------------------------------- the flush

  /**
   * Writes go out in transactions of WRITE_CHUNK. If write number `fault` throws, its whole chunk is
   * rolled back, the chunks before it stay, and the run ends there.
   */
  method FlushWrites(db: Database, writes: seq<Write>, fault: Option<nat>)
    returns (r: Option<seq<MarketId>>, progress: nat)
    requires Constraints(db.Snapshot())
    modifies db
    ensures Constraints(db.Snapshot())
    ensures db.Snapshot() == WriteAll(old(db.Snapshot()), writes[..Committed(|writes|, fault)])
    ensures r.Some? <==> Committed(|writes|, fault) == |writes| && (fault.Some? ==> fault.value >= |writes|)
    ensures r.Some? ==> IdsMatch(db.Snapshot(), r.value, writes)
    ensures Committed(|writes|, fault) <= progress * WRITE_CHUNK < Committed(|writes|, fault) + WRITE_CHUNK
  {
    hide WriteOne, Constraints, IdsMatch, RowOf;
    ghost var was := db.Snapshot();
    var ids: seq<MarketId> := [];
    progress := 0;
    var i := 0;
    NoIds(was);
    while i < |writes|
      invariant 0 <= i <= |writes| && Constraints(db.Snapshot())
      invariant i == progress * WRITE_CHUNK || (i == |writes| && i <= progress * WRITE_CHUNK < i + WRITE_CHUNK)
      invariant db.Snapshot() == WriteAll(was, writes[..i])
      invariant IdsMatch(db.Snapshot(), ids, writes[..i])
      invariant fault.Some? ==> i <= fault.value || i == |writes|
      invariant fault.Some? && fault.value < |writes| ==> i <= fault.value
    {
      var tx, out := db.Snapshot(), ids;
      var n := if |writes| - i < WRITE_CHUNK then |writes| - i else WRITE_CHUNK;
      var j := 0;
      while j < n
        invariant 0 <= j <= n && Constraints(tx)
        invariant db.Snapshot() == WriteAll(was, writes[..i])
        invariant tx == WriteAll(was, writes[..i + j])
        invariant IdsMatch(tx, out, writes[..i + j])
        invariant fault.Some? && fault.value < |writes| ==> i + j <= fault.value
      {
        if fault == Some(i + j) {
          FaultChunk(i, j, progress);
          return None, progress;
        }
        var w := writes[i + j];
        WriteOneKeepsIds(tx, w, out, writes[..i + j]);
        assert writes[..i + j + 1] == writes[..i + j] + [w];
        assert writes[..i + j + 1][..i + j] == writes[..i + j];
        tx := WriteOne(tx, w);
        out := out + [IdOf(tx, w.quote.poly).value];
        j := j + 1;
      }
      db.Commit(tx);
      ids := out;
      progress := progress + 1;
      i := i + n;
    }
    assert writes[..i] == writes;
    return Some(ids), progress;
  }

  lemma {:induction false} NoIds(db: Db)
    ensures IdsMatch(db, [], [])
  {}

  lemma {:induction false} FaultChunk(i: nat, j: nat, k: nat)
    requires i == k * WRITE_CHUNK && j < WRITE_CHUNK
    ensures (i + j) / WRITE_CHUNK * WRITE_CHUNK == i
  {}

  // ---------------------------------------------------------------- the S2 pass

  datatype Depth = Depth(tradable: bool, book: Book)

  /** One sports market as fetched: its mid prices may be missing. */
  datatype Sport = Sport(poly: PolyId, yesBp: Option<int>, noBp: Option<int>, deadline: int, startsAt: Option<int>)

  datatype Verdict = Skipped | Unevaluated | OutOfBand | Rejected | Affirmed

  predicate InBand(bp: int) { S2_SIDE_FLOOR_BP <= bp <= S2_SIDE_CEIL_BP }

  /** The price the band judges: the executable one, or the mid where the book gave none. */
  function BandPrice(eff: Option<int>, mid: int): int { eff.GetOr(mid) }

  function VerdictOf(s: Sport, depths: map<PolyId, Depth>): Verdict {
    if s.yesBp.None? || s.noBp.None? then Skipped
    else if s.poly !in depths then Unevaluated
    else
      var d := depths[s.poly];
      if !InBand(BandPrice(d.book.yesEffBp, s.yesBp.value)) || !InBand(BandPrice(d.book.noEffBp, s.noBp.value))
      then OutOfBand
      else if !d.tradable then Rejected
      else Affirmed
  }

  /** The external ids of the fetched rows that get verdict v. */
  function With(v: Verdict, sports: seq<Sport>, depths: map<PolyId, Depth>): set<PolyId> {
    set i: nat | i < |sports| && VerdictOf(sports[i], depths) == v :: sports[i].poly
  }

  /** The external ids of the markets that are S2-eligible. */
  function Eligible(db: Db): set<PolyId> {
    set m | m in db.metas && m in db.markets && db.metas[m].s2Eligible :: db.markets[m].poly
  }

  function PolysOf(ws: seq<Write>): set<PolyId> { set w | w in ws :: w.quote.poly }

  /** The depth gate answered for at least one fetched row, or there was none to answer for. */
  predicate DepthSpoke(sports: seq<Sport>, depths: map<PolyId, Depth>) {
    sports == [] || exists i: nat :: i < |sports| && !VerdictOf(sports[i], depths).Unevaluated?
  }

  /** Both sides of market p, at the prices the band judges, lie inside it. */
  predicate BothInBand(p: PolyId, sports: seq<Sport>, depths: map<PolyId, Depth>)
    requires p in depths
  {
    exists s :: s in sports && s.poly == p && s.yesBp.Some? && s.noBp.Some?
                && InBand(BandPrice(depths[p].book.yesEffBp, s.yesBp.value))
                && InBand(BandPrice(depths[p].book.noEffBp, s.noBp.value))
  }

  /**
   * Nothing is both affirmed and rejected: both verdicts look at the one depth of that market. What is
   * affirmed can be traded, at prices inside the band on both sides; what is rejected is in band too,
   * and only cannot be traded.
   */
  lemma {:induction false} AffirmedNotRejected(sports: seq<Sport>, depths: map<PolyId, Depth>)
    ensures With(Affirmed, sports, depths) !! With(Rejected, sports, depths)
    ensures forall p :: p in With(Affirmed, sports, depths) ==>
              p in depths && depths[p].tradable && BothInBand(p, sports, depths)
    ensures forall p :: p in With(Rejected, sports, depths) ==>
              p in depths && !depths[p].tradable && BothInBand(p, sports, depths)
  {
    forall p | p in With(Affirmed, sports, depths) + With(Rejected, sports, depths)
      ensures p in depths && BothInBand(p, sports, depths)
    {
      var i: nat :| i < |sports| && sports[i].poly == p
                    && (VerdictOf(sports[i], depths).Affirmed? || VerdictOf(sports[i], depths).Rejected?);
      assert sports[i] in sports;
    }
  }

  // ---------------------------------------------------------------- the verdicts on the depths themselves

  /** The executable price where the book gave one, else the mid, between 2 and 98 per cent. */
  predicate PriceInBand(eff: Option<int>, mid: Option<int>) {
    mid.Some? && if eff.Some? then 200 <= eff.value <= 9_800 else 200 <= mid.value <= 9_800
  }

  /** Both mids are there, the depth was read, and both sides are in band. */
  predicate Judged(s: Sport, depths: map<PolyId, Depth>) {
    && s.poly in depths
    && PriceInBand(depths[s.poly].book.yesEffBp, s.yesBp) && PriceInBand(depths[s.poly].book.noEffBp, s.noBp)
  }

  /** Both mids are there, but no depth could be read. */
  predicate Unread(s: Sport, depths: map<PolyId, Depth>) { s.yesBp.Some? && s.noBp.Some? && s.poly !in depths }

  function AffirmedIds(sports: seq<Sport>, depths: map<PolyId, Depth>): set<PolyId> {
    set s | s in sports && Judged(s, depths) && depths[s.poly].tradable :: s.poly
  }

  function RejectedIds(sports: seq<Sport>, depths: map<PolyId, Depth>): set<PolyId> {
    set s | s in sports && Judged(s, depths) && !depths[s.poly].tradable :: s.poly
  }

  function UnreadIds(sports: seq<Sport>, depths: map<PolyId, Depth>): set<PolyId> {
    set s | s in sports && Unread(s, depths) :: s.poly
  }

  /** Nothing was fetched, or of something fetched it can be said why it was not left unread. */
  predicate Spoke(sports: seq<Sport>, depths: map<PolyId, Depth>) {
    sports == [] || exists s :: s in sports && !Unread(s, depths)
  }

  lemma {:induction false} VerdictExactly(s: Sport, depths: map<PolyId, Depth>)
    ensures Judged(s, depths) ==> s.poly in depths
    ensures VerdictOf(s, depths).Affirmed? <==> Judged(s, depths) && depths[s.poly].tradable
    ensures VerdictOf(s, depths).Rejected? <==> Judged(s, depths) && !depths[s.poly].tradable
    ensures VerdictOf(s, depths).Unevaluated? <==> Unread(s, depths)
  {}

  /** The pass affirms, rejects and spares exactly the markets whose depths and prices call for it. */
  lemma {:induction false} VerdictsExactly(sports: seq<Sport>, depths: map<PolyId, Depth>)
    ensures With(Affirmed, sports, depths) == AffirmedIds(sports, depths)
    ensures With(Rejected, sports, depths) == RejectedIds(sports, depths)
    ensures With(Unevaluated, sports, depths) == UnreadIds(sports, depths)
    ensures DepthSpoke(sports, depths) <==> Spoke(sports, depths)
  {
    hide VerdictOf, Judged, Unread;
    forall s | s in sports
      ensures Judged(s, depths) ==> s.poly in depths
      ensures VerdictOf(s, depths).Affirmed? <==> Judged(s, depths) && depths[s.poly].tradable
      ensures VerdictOf(s, depths).Rejected? <==> Judged(s, depths) && !depths[s.poly].tradable
      ensures VerdictOf(s, depths).Unevaluated? <==> Unread(s, depths)
    {
      VerdictExactly(s, depths);
    }
    WithIs(Affirmed, sports, depths);
    WithIs(Rejected, sports, depths);
    WithIs(Unevaluated, sports, depths);
    if s :| s in sports && !Unread(s, depths) {
      var i: nat :| i < |sports| && sports[i] == s;
      assert !VerdictOf(sports[i], depths).Unevaluated?;
    }
  }

  lemma {:induction false} WithIs(v: Verdict, sports: seq<Sport>, depths: map<PolyId, Depth>)
    ensures With(v, sports, depths) == set s | s in sports && VerdictOf(s, depths) == v :: s.poly
  {
    hide VerdictOf;
    forall p | p in With(v, sports, depths)
      ensures exists s :: s in sports && VerdictOf(s, depths) == v && s.poly == p
    {
      var i: nat :| i < |sports| && VerdictOf(sports[i], depths) == v && sports[i].poly == p;
      assert sports[i] in sports;
    }
    forall s | s in sports && VerdictOf(s, depths) == v ensures s.poly in With(v, sports, depths) {
      var i: nat :| i < |sports| && sports[i] == s;
    }
  }
}
