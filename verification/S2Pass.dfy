/** The S2 pass of the hedge index run: classify, flush, stamp, demote. */
module S2Pass {
  import opened Options
  import opened Tables
  import opened Runs
  import opened Store
  import opened HedgeIndex

  datatype Ending =
    | Finished
    | FetchFailed // loud at the end, after everything recoverable has landed
    | Aborted     // a write chunk threw: nothing after the flush happened

  ghost predicate FromDepths(ws: seq<Write>, depths: map<PolyId, Depth>) {
    forall w :: w in ws ==>
      w.s2Eligible == Some(true) && w.quote.poly in depths && w.quote.book == depths[w.quote.poly].book
  }

  /** The write carries this fetched market's dates, the depth just read, and the flag. */
  predicate WritesFor(w: Write, s: Sport, depths: map<PolyId, Depth>) {
    && w.quote.poly == s.poly && w.quote.deadline == s.deadline && w.quote.startsAt == s.startsAt
    && s.poly in depths && w.quote.book == depths[s.poly].book && w.s2Eligible == Some(true)
  }

  method Classify(sports: seq<Sport>, depths: map<PolyId, Depth>)
    returns (writes: seq<Write>, rejected: seq<PolyId>, unevaluated: seq<PolyId>)
    ensures PolysOf(writes) == With(Affirmed, sports, depths) && FromDepths(writes, depths)
    ensures forall w :: w in writes ==> exists s :: s in sports && WritesFor(w, s, depths)
    ensures (set p | p in rejected) == With(Rejected, sports, depths)
    ensures (set p | p in unevaluated) == With(Unevaluated, sports, depths)
    ensures !(|sports| > 0 && |unevaluated| == |sports|) <==> DepthSpoke(sports, depths)
  {
    writes, rejected, unevaluated := [], [], [];
    var i := 0;
    while i < |sports|
      invariant 0 <= i <= |sports|
      invariant PolysOf(writes) == With(Affirmed, sports[..i], depths) && FromDepths(writes, depths)
      invariant forall w :: w in writes ==> exists s :: s in sports && WritesFor(w, s, depths)
      invariant (set p | p in rejected) == With(Rejected, sports[..i], depths)
      invariant (set p | p in unevaluated) == With(Unevaluated, sports[..i], depths)
      invariant |unevaluated| <= i
      invariant |unevaluated| == i <==> forall j: nat :: j < i ==> VerdictOf(sports[j], depths).Unevaluated?
    {
      hide VerdictOf, FromDepths, With, PolysOf;
      var s := sports[i];
      WithOneMore(Affirmed, sports, depths, i);
      WithOneMore(Rejected, sports, depths, i);
      WithOneMore(Unevaluated, sports, depths, i);
      match VerdictOf(s, depths) {
        case Unevaluated =>
          unevaluated := unevaluated + [s.poly];
        case Rejected =>
          rejected := rejected + [s.poly];
        case Affirmed =>
          AffirmedHasDepth(s, depths);
          var w := Write(Quote(s.poly, s.deadline, s.startsAt, depths[s.poly].book), Some(true));
          OneMoreWrite(writes, w, depths);
          assert s in sports && WritesFor(w, s, depths);
          writes := writes + [w];
        case _ =>
      }
      i := i + 1;
    }
    assert sports[..i] == sports;
  }

  lemma {:induction false} WithOneMore(v: HedgeIndex.Verdict, sports: seq<Sport>, depths: map<PolyId, Depth>, i: nat)
    requires i < |sports|
    ensures With(v, sports[..i + 1], depths) ==
            With(v, sports[..i], depths) + (if VerdictOf(sports[i], depths) == v then {sports[i].poly} else {})
  {
    hide VerdictOf;
    var a, b := sports[..i + 1], sports[..i];
    forall j: nat | j < i ensures a[j] == b[j] == sports[j] {}
    assert a[i] == sports[i];
    forall p | p in With(v, a, depths)
      ensures p in With(v, b, depths) || (VerdictOf(sports[i], depths) == v && p == sports[i].poly)
    {
      var j: nat :| j < |a| && VerdictOf(a[j], depths) == v && a[j].poly == p;
      assert j < i ==> VerdictOf(b[j], depths) == v && b[j].poly == p;
    }
    forall p | p in With(v, b, depths) ensures p in With(v, a, depths) {
      var j: nat :| j < |b| && VerdictOf(b[j], depths) == v && b[j].poly == p;
      assert VerdictOf(a[j], depths) == v && a[j].poly == p;
    }
    if VerdictOf(sports[i], depths) == v {
      assert VerdictOf(a[i], depths) == v && a[i].poly == sports[i].poly;
    }
  }

  lemma {:induction false} AffirmedHasDepth(s: Sport, depths: map<PolyId, Depth>)
    requires VerdictOf(s, depths).Affirmed?
    ensures s.poly in depths
  {}

  lemma {:induction false} OneMoreWrite(ws: seq<Write>, w: Write, depths: map<PolyId, Depth>)
    requires FromDepths(ws, depths) && FromDepths([w], depths)
    ensures FromDepths(ws + [w], depths) && PolysOf(ws + [w]) == PolysOf(ws) + {w.quote.poly}
  {
    assert w in [w];
    assert forall x :: x in ws + [w] <==> x in ws || x == w;
  }

  // ---------------------------------------------------------------- what each part does

  lemma {:induction false} EligibleAfterWrite(db: Db, w: Write)
    requires Constraints(db) && w.s2Eligible == Some(true)
    ensures Eligible(WriteOne(db, w)) == Eligible(db) + {w.quote.poly}
  {
    hide WriteOne, RowOf;
    var out := WriteOne(db, w);
    WriteOneRow(db, w);
    var id := IdOf(out, w.quote.poly).value;
    assert out.markets[id].poly == w.quote.poly;
    forall p | p in Eligible(db) ensures p in Eligible(out) {
      var m :| m in db.metas && m in db.markets && db.metas[m].s2Eligible && db.markets[m].poly == p;
      assert m in out.metas && out.metas[m].s2Eligible && out.markets[m].poly == p;
    }
    forall p | p in Eligible(out) ensures p in Eligible(db) || p == w.quote.poly {
      var m :| m in out.metas && m in out.markets && out.metas[m].s2Eligible && out.markets[m].poly == p;
      if m != id {
        assert m in db.metas && db.metas[m].s2Eligible && db.markets[m].poly == p;
      }
    }
  }

  /** What the flushed writes leave behind: the affirmed rows eligible, with the numbers just read. */
  lemma {:induction false} AfterWrites(db: Db, ws: seq<Write>, depths: map<PolyId, Depth>)
    requires Constraints(db) && FromDepths(ws, depths)
    ensures var out := WriteAll(db, ws);
            && Constraints(out)
            && Eligible(out) == Eligible(db) + PolysOf(ws)
            && forall p :: p in PolysOf(ws) ==> HasBook(out, p, depths)
    decreases |ws|
  {
    hide WriteOne, Constraints, Eligible, HasBook;
    if ws == [] {
      assert PolysOf(ws) == {};
    } else {
      var n := |ws| - 1;
      var w, mid := ws[n], WriteAll(db, ws[..n]);
      AfterWrites(db, ws[..n], depths);
      WriteOneRow(mid, w);
      EligibleAfterWrite(mid, w);
      assert ws == ws[..n] + [w];
      assert forall x :: x in ws <==> x in ws[..n] || x == w;
      assert PolysOf(ws) == PolysOf(ws[..n]) + {w.quote.poly};
      forall p | p in PolysOf(ws) ensures HasBook(WriteOne(mid, w), p, depths) {
        BookAfterWrite(mid, w, p, depths);
      }
    }
  }

  /** The row of p carries the depth read for p this run. */
  predicate HasBook(db: Db, p: PolyId, depths: map<PolyId, Depth>) {
    && p in depths
    && exists m :: m in db.markets && db.markets[m].poly == p && db.markets[m].book == depths[p].book
  }

  lemma {:induction false} BookAfterWrite(db: Db, w: Write, p: PolyId, depths: map<PolyId, Depth>)
    requires Constraints(db) && FromDepths([w], depths)
    requires p == w.quote.poly || HasBook(db, p, depths)
    ensures HasBook(WriteOne(db, w), p, depths)
  {
    hide WriteOne, RowOf;
    var out := WriteOne(db, w);
    WriteOneRow(db, w);
    var id := IdOf(out, w.quote.poly).value;
    assert w in [w];
    if p == w.quote.poly {
      assert out.markets[id].book == depths[p].book;
    } else {
      var m :| m in db.markets && db.markets[m].poly == p && db.markets[m].book == depths[p].book;
      assert m in out.markets && out.markets[m].poly == p;
      assert m != id && out.markets[m] == db.markets[m];
    }
  }

  /** The rows of these markets have no executable price and no size any more. */
  ghost predicate Stamped(db: Db, polys: set<PolyId>, now: int) {
    forall m :: m in db.markets && db.markets[m].poly in polys ==> NoOffer(db.markets[m].book, now)
  }

  lemma {:induction false} StampStamps(db: Db, polys: set<PolyId>, now: int)
    ensures Stamped(Apply(db, Stamp(polys, now)), polys, now)
    ensures polys == {} ==> Stamped(db, polys, now)
    ensures var out := Apply(db, Stamp(polys, now));
            && out == db.(markets := out.markets) && out.markets.Keys == db.markets.Keys
            && forall m :: m in db.markets ==>
                 out.markets[m] == if db.markets[m].poly in polys then db.markets[m].(book := out.markets[m].book)
                                   else db.markets[m]
  {}

  lemma {:induction false} DemoteKeepsStamps(
      db: Db, keep: set<MarketId>, spared: set<PolyId>, polys: set<PolyId>, now: int)
    requires Stamped(db, polys, now)
    ensures Stamped(Apply(db, Demote(keep, spared)), polys, now)
  {}

  lemma {:induction false} AfterStamp(db: Db, polys: set<PolyId>, now: int, p: PolyId, depths: map<PolyId, Depth>)
    ensures Eligible(Apply(db, Stamp(polys, now))) == Eligible(db)
    ensures HasBook(db, p, depths) && p !in polys ==> HasBook(Apply(db, Stamp(polys, now)), p, depths)
  {
    var out := Apply(db, Stamp(polys, now));
    assert out.metas == db.metas && out.markets.Keys == db.markets.Keys;
    assert forall m :: m in db.markets ==> out.markets[m].poly == db.markets[m].poly;
    if HasBook(db, p, depths) && p !in polys {
      var m :| m in db.markets && db.markets[m].poly == p && db.markets[m].book == depths[p].book;
      assert out.markets[m] == db.markets[m];
    }
  }

  lemma {:induction false} AfterStampAll(db: Db, polys: set<PolyId>, now: int, depths: map<PolyId, Depth>)
    ensures var out := Apply(db, Stamp(polys, now));
            && Eligible(out) == Eligible(db)
            && forall p :: HasBook(db, p, depths) && p !in polys ==> HasBook(out, p, depths)
  {
    hide Apply, Eligible, HasBook;
    AfterStamp(db, polys, now, 0, depths);
    forall p | HasBook(db, p, depths) && p !in polys ensures HasBook(Apply(db, Stamp(polys, now)), p, depths) {
      AfterStamp(db, polys, now, p, depths);
    }
  }

  lemma {:induction false} AfterDemote(db: Db, ids: seq<MarketId>, ws: seq<Write>, unevaluated: set<PolyId>)
    requires Constraints(db) && IdsMatch(db, ids, ws)
    ensures var keep := set m | m in ids;
            Eligible(Apply(db, Demote(keep, unevaluated))) ==
            (Eligible(db) * PolysOf(ws)) + (Eligible(db) * unevaluated)
  {
    var keep := set m | m in ids;
    var out := Apply(db, Demote(keep, unevaluated));
    forall m | m in db.markets ensures m in keep <==> db.markets[m].poly in PolysOf(ws) {
      if m in keep {
        var j :| 0 <= j < |ids| && ids[j] == m;
        assert ws[j] in ws;
      }
      if db.markets[m].poly in PolysOf(ws) {
        var w :| w in ws && w.quote.poly == db.markets[m].poly;
        var j :| 0 <= j < |ws| && ws[j] == w;
        assert db.markets[ids[j]].poly == db.markets[m].poly;
      }
    }
    forall p | p in Eligible(out) ensures p in Eligible(db) && (p in PolysOf(ws) || p in unevaluated) {
      var m :| m in out.metas && m in out.markets && out.metas[m].s2Eligible && out.markets[m].poly == p;
      assert db.metas[m].s2Eligible;
    }
    forall p | p in Eligible(db) && (p in PolysOf(ws) || p in unevaluated) ensures p in Eligible(out) {
      var m :| m in db.metas && m in db.markets && db.metas[m].s2Eligible && db.markets[m].poly == p;
      assert out.metas[m].s2Eligible;
    }
  }

  // ---------------------------------------------------------------- what a finished pass leaves eligible

  /** Affirmed, or eligible before and left unread; as before when the fetch failed or nothing spoke. */
  function EligibleAfter(was: set<PolyId>, fetch: Option<seq<Sport>>, depths: map<PolyId, Depth>): set<PolyId> {
    if fetch.None? || !Spoke(fetch.value, depths) then was
    else AffirmedIds(fetch.value, depths) + (was * UnreadIds(fetch.value, depths))
  }

  lemma {:induction false} EligibleAfterIs(was: set<PolyId>, fetch: Option<seq<Sport>>, depths: map<PolyId, Depth>)
    ensures var sports := fetch.GetOr([]);
            EligibleAfter(was, fetch, depths) ==
            if fetch.Some? && Spoke(sports, depths) then AffirmedIds(sports, depths) + (was * UnreadIds(sports, depths))
            else was
    ensures fetch.None? ==> fetch.GetOr([]) == []
  {}

  /** A market whose depth could not be read keeps what it had: unproven is not untradable. */
  lemma {:induction false} UnreadKeepsEligibility(
      was: set<PolyId>, fetch: Option<seq<Sport>>, depths: map<PolyId, Depth>, s: Sport)
    requires fetch.Some? && s in fetch.value && s.yesBp.Some? && s.noBp.Some? && s.poly !in depths
    ensures s.poly in EligibleAfter(was, fetch, depths) <==> s.poly in was
  {}

  /**
   * A run in which no depth was read is meant to demote nothing. That holds exactly when the fetch
   * failed, or it brought something and every market of it has both mids, or what was eligible is
   * among the fetched markets with both mids: one fetched market without a mid counts as evidence.
   */
  lemma {:induction false} NoDepthIff(was: set<PolyId>, fetch: Option<seq<Sport>>, depths: map<PolyId, Depth>)
    requires fetch.Some? ==> forall s :: s in fetch.value ==> s.poly !in depths
    ensures EligibleAfter(was, fetch, depths) == was
            <==> || fetch.None?
                 || (fetch.value != [] && forall s :: s in fetch.value ==> s.yesBp.Some? && s.noBp.Some?)
                 || forall p :: p in was ==>
                      exists s :: s in fetch.value && s.poly == p && s.yesBp.Some? && s.noBp.Some?
  {
    if fetch.Some? {
      assert AffirmedIds(fetch.value, depths) == {};
      if fetch.value != [] && forall s :: s in fetch.value ==> s.yesBp.Some? && s.noBp.Some? {
        assert !Spoke(fetch.value, depths);
      }
    }
  }

  /** Two markets fetched, one without its NO mid, no depth read: an eligible third one is demoted. */
  lemma {:induction false} NoDepthYetDemoted()
    ensures var fetch := Some([Sport(1, Some(5000), None, 0, None), Sport(2, Some(5000), Some(5000), 0, None)]);
            EligibleAfter({2, 3}, fetch, map[]) == {2}
  {
    var a, b := Sport(1, Some(5000), None, 0, None), Sport(2, Some(5000), Some(5000), 0, None);
    var sports := [a, b];
    assert a in sports && b in sports;
    assert Unread(b, map[]) && !Unread(a, map[]);
    assert UnreadIds(sports, map[]) == {2};
    assert AffirmedIds(sports, map[]) == {};
  }

  // ---------------------------------------------------------------- the pass

  /**
   * `fetch` is None when the discovery request threw; `rejectedBefore` are the ids the crypto pass of
   * the same run rejected.
   */
  method RefreshSports(
      db: Database, fetch: Option<seq<Sport>>, depths: map<PolyId, Depth>, rejectedBefore: set<PolyId>,
      now: int, fault: Option<nat>)
    returns (ending: Ending)
    requires Constraints(db.Snapshot())
    modifies db
    ensures Constraints(db.Snapshot())
    ensures var sports := fetch.GetOr([]);
            var affirmed := AffirmedIds(sports, depths);
            var was := old(db.Snapshot());
            && (ending.Aborted? ==> Eligible(was) <= Eligible(db.Snapshot()) <= Eligible(was) + affirmed)
            && (!ending.Aborted? ==>
                  && (ending.FetchFailed? <==> fetch.None?)
                  && Eligible(db.Snapshot()) == EligibleAfter(Eligible(was), fetch, depths)
                  && (forall p :: p in affirmed && p !in rejectedBefore ==> HasBook(db.Snapshot(), p, depths))
                  && Stamped(db.Snapshot(), rejectedBefore + RejectedIds(sports, depths), now))
  {
    hide *;
    EligibleAfterIs(Eligible(db.Snapshot()), fetch, depths);
    ghost var was := db.Snapshot();
    var sports := fetch.GetOr([]);
    var writes, rejected, unevaluated := Classify(sports, depths);
    VerdictsExactly(sports, depths);
    var r, _ := FlushWrites(db, writes, fault);
    ghost var k := Committed(|writes|, fault);
    PrefixOfWrites(writes, k, depths);
    AfterWrites(was, writes[..k], depths);
    if r.None? {
      return Aborted;
    }
    assert writes[..k] == writes;
    ghost var flushed := db.Snapshot();
    var stamp := rejectedBefore + set p | p in rejected;
    assert stamp == rejectedBefore + With(Rejected, sports, depths);
    StampStamps(flushed, stamp, now);
    if stamp != {} {
      StepKeepsConstraints(db.Snapshot(), Stamp(stamp, now));
      StampKeepsIds(db.Snapshot(), stamp, now, r.value, writes);
      db.Perform(Stamp(stamp, now));
    }
    ghost var stamped := db.Snapshot();
    assert Stamped(stamped, stamp, now);
    if stamp != {} {
      AfterStampAll(flushed, stamp, now, depths);
    }
    AffirmedNotRejected(sports, depths);
    var depthSpoke := !(|sports| > 0 && |unevaluated| == |sports|);
    if fetch.Some? && depthSpoke {
      var keep := set m | m in r.value;
      var spared := set p | p in unevaluated;
      AfterDemote(stamped, r.value, writes, spared);
      StepKeepsConstraints(stamped, Demote(keep, spared));
      DemoteKeepsBooks(stamped, keep, spared, depths);
      DemoteKeepsStamps(stamped, keep, spared, stamp, now);
      db.Perform(Demote(keep, spared));
    } else {
      NothingAffirmed(sports, depths);
    }
    return if fetch.Some? then Finished else FetchFailed;
  }

  lemma {:induction false} PrefixOfWrites(ws: seq<Write>, k: nat, depths: map<PolyId, Depth>)
    requires k <= |ws| && FromDepths(ws, depths)
    ensures FromDepths(ws[..k], depths) && PolysOf(ws[..k]) <= PolysOf(ws)
  {
    assert forall w :: w in ws[..k] ==> w in ws;
  }

  lemma {:induction false} StampKeepsIds(db: Db, polys: set<PolyId>, now: int, ids: seq<MarketId>, ws: seq<Write>)
    requires IdsMatch(db, ids, ws)
    ensures IdsMatch(Apply(db, Stamp(polys, now)), ids, ws)
  {}

  lemma {:induction false} DemoteKeepsBooks(
      db: Db, keep: set<MarketId>, spared: set<PolyId>, depths: map<PolyId, Depth>)
    ensures forall p :: HasBook(Apply(db, Demote(keep, spared)), p, depths) == HasBook(db, p, depths)
  {}

  /** When the fetch failed or no depth read succeeded, there was nothing to affirm either. */
  lemma {:induction false} NothingAffirmed(sports: seq<Sport>, depths: map<PolyId, Depth>)
    ensures sports == [] || !DepthSpoke(sports, depths) ==> With(Affirmed, sports, depths) == {}
  {
    hide VerdictOf;
  }
}
