/** The market cache collector: select, then delete chunk by chunk while other clients keep writing. */
module Prune {
  import opened Options
  import opened Tables
  import opened Runs
  import opened Lifecycle
  import opened Store
  import opened Seqs

  const PRUNE_MAX_ROWS := 5_000
  const DELETE_CHUNK := 1_000

  datatype PruneResult =
    | Pruned(deleted: nat, more: bool)
    | Thrown // a delete statement was refused by a foreign key

  function PrunableRows(db: Db, cutoff: int): set<MarketId> {
    set m | m in db.markets && Prunable(db, m, cutoff)
  }

  /** No bet, hedge event or order attempt names the market. */
  ghost predicate Unnamed(db: Db, m: MarketId) {
    && (forall i :: 0 <= i < |db.bets| ==> db.bets[i].market != m)
    && (forall i :: 0 <= i < |db.events| ==> db.events[i] != Some(m))
    && (forall i :: 0 <= i < |db.attempts| ==> db.attempts[i] != m)
  }

  /** What the collector is for: expired, and nothing to be lost with it. A meta row does not count. */
  ghost predicate Collectable(db: Db, m: MarketId, cutoff: int) {
    m in db.markets && db.markets[m].deadline < cutoff && Unnamed(db, m)
  }

  lemma {:induction false} UnnamedExactly(db: Db, m: MarketId)
    ensures Unnamed(db, m) <==> !Referred(db, m)
  {
    if !Referred(db, m) {
      assert forall i :: 0 <= i < |db.events| ==> db.events[i] in db.events;
      assert forall i :: 0 <= i < |db.attempts| ==> db.attempts[i] in db.attempts;
    }
  }

  /** The rows the select asks for are the collectable ones. */
  lemma {:induction false} PrunableExactly(db: Db, cutoff: int)
    ensures forall m :: m in PrunableRows(db, cutoff) <==> Collectable(db, m, cutoff)
  {
    hide Referred, Unnamed;
    forall m ensures Unnamed(db, m) <==> !Referred(db, m) {
      UnnamedExactly(db, m);
    }
  }

  /** The database with these rows and their metas gone. */
  function Without(db: Db, ids: set<MarketId>): Db {
    db.(markets := map m | m in db.markets && m !in ids :: db.markets[m],
        metas := map m | m in db.metas && m !in ids :: db.metas[m])
  }

  // ---------------------------------------------------------------- the statements of a collection

  /** The ids of chunk number c; the last chunk may be short. */
  function ChunkAt(ids: seq<MarketId>, c: nat): set<MarketId> {
    Elements(ids[Min(c * DELETE_CHUNK, |ids|)..Min((c + 1) * DELETE_CHUNK, |ids|)])
  }

  /** Everything committed from the select up to chunk c's row delete, and no further. */
  function UpToDelete(ids: seq<MarketId>, c: nat, others: nat -> seq<Step>): seq<Step>
    decreases c, 1
  {
    Trace(ids, c, others) + (others(2 * c) + [PruneMetas(ChunkAt(ids, c))] + others(2 * c + 1))
  }

  /** The first c chunks with everything other clients commit in between. */
  function Trace(ids: seq<MarketId>, c: nat, others: nat -> seq<Step>): seq<Step>
    decreases c, 0
  {
    if c == 0 then [] else UpToDelete(ids, c - 1, others) + [PruneRows(ChunkAt(ids, c - 1))]
  }

  /** The rows that go with chunk c: those nothing refers to at that very statement. */
  function GoneAt(was: Db, ids: seq<MarketId>, c: nat, others: nat -> seq<Step>): set<MarketId> {
    Deletable(Run(was, UpToDelete(ids, c, others)), ChunkAt(ids, c))
  }

  function GoneCount(was: Db, ids: seq<MarketId>, c: nat, others: nat -> seq<Step>): nat {
    if c == 0 then 0 else GoneCount(was, ids, c - 1, others) + |GoneAt(was, ids, c - 1, others)|
  }

  /** The foreign key of a MarketMeta row written in the meantime refuses chunk c's row delete. */
  predicate Refuses(was: Db, ids: seq<MarketId>, c: nat, others: nat -> seq<Step>) {
    !(GoneAt(was, ids, c, others) !! Run(was, UpToDelete(ids, c, others)).metas.Keys)
  }

  /** What a select of at most maxRows prunable rows may return. */
  ghost predicate Selected(db: Db, cutoff: int, maxRows: nat, ids: seq<MarketId>) {
    && Distinct(ids) && Elements(ids) <= PrunableRows(db, cutoff) && |ids| <= maxRows
    && (|ids| < maxRows ==> Elements(ids) == PrunableRows(db, cutoff))
  }

  /** One chunk: its metas, then its rows, with other clients committing before each statement. */
  method DeleteChunk(db: Database, ghost was: Db, ids: seq<MarketId>, c: nat, others: nat -> seq<Step>)
    returns (gone: nat, refused: bool)
    requires Constraints(db.Snapshot()) && db.Snapshot() == Run(was, Trace(ids, c, others))
    modifies db
    ensures Constraints(db.Snapshot()) && db.Snapshot() == Run(was, Trace(ids, c + 1, others))
    ensures gone == |GoneAt(was, ids, c, others)| && (refused <==> Refuses(was, ids, c, others))
  {
    hide Apply, Run, Trace, ChunkAt, Constraints, Deletable;
    var chunk := ChunkAt(ids, c);
    ChunkIsRun(was, ids, c, others);
    RunKeepsConstraints(db.Snapshot(), others(2 * c) + [PruneMetas(chunk)] + others(2 * c + 1) + [PruneRows(chunk)]);
    RoundIsRun(db.Snapshot(), others(2 * c), PruneMetas(chunk), others(2 * c + 1), PruneRows(chunk));
    db.Others(others(2 * c));
    db.Perform(PruneMetas(chunk));
    db.Others(others(2 * c + 1));
    var doomed := Deletable(db.Snapshot(), chunk);
    gone, refused := |doomed|, !(doomed !! db.metas.Keys);
    db.Perform(PruneRows(chunk));
  }

  lemma {:induction false} ChunkIsRun(was: Db, ids: seq<MarketId>, c: nat, others: nat -> seq<Step>)
    ensures var start := Run(was, Trace(ids, c, others));
            var before := Run(Apply(Run(start, others(2 * c)), PruneMetas(ChunkAt(ids, c))), others(2 * c + 1));
            && Run(was, UpToDelete(ids, c, others)) == before
            && Run(was, Trace(ids, c + 1, others)) == Apply(before, PruneRows(ChunkAt(ids, c)))
  {
    hide Apply, Run, ChunkAt;
    var chunk := ChunkAt(ids, c);
    var g0, g1 := others(2 * c), others(2 * c + 1);
    RunConcat(was, Trace(ids, c, others), g0 + [PruneMetas(chunk)] + g1);
    var start := Run(was, Trace(ids, c, others));
    RunConcat(start, g0 + [PruneMetas(chunk)], g1);
    RunConcat(start, g0, [PruneMetas(chunk)]);
    RunOne(Run(start, g0), PruneMetas(chunk));
    RunConcat(was, UpToDelete(ids, c, others), [PruneRows(chunk)]);
    RunOne(Run(was, UpToDelete(ids, c, others)), PruneRows(chunk));
  }

  /**
   * One collection. `others(k)` is what other clients commit before its k-th delete statement. The
   * ghost results name the select's answer and how many chunks were issued; with them the final state,
   * the count and the outcome are fixed, whatever the other clients do.
   */
  method PruneMarkets(db: Database, cutoff: int, maxRows: nat, others: nat -> seq<Step>)
    returns (r: PruneResult, ghost ids: seq<MarketId>, ghost rounds: nat)
    requires Constraints(db.Snapshot())
    modifies db
    ensures Constraints(db.Snapshot())
    ensures Selected(old(db.Snapshot()), cutoff, maxRows, ids)
    ensures forall m :: m in ids ==> Collectable(old(db.Snapshot()), m, cutoff)
    ensures |ids| < maxRows ==> forall m :: Collectable(old(db.Snapshot()), m, cutoff) ==> m in ids
    ensures db.Snapshot() == Run(old(db.Snapshot()), Trace(ids, rounds, others))
    ensures forall c :: 0 <= c < rounds - 1 ==> !Refuses(old(db.Snapshot()), ids, c, others)
    ensures r.Thrown? ==> rounds > 0 && Refuses(old(db.Snapshot()), ids, rounds - 1, others)
    ensures r.Pruned? ==>
              && (rounds - 1) * DELETE_CHUNK < |ids| <= rounds * DELETE_CHUNK
              && (rounds > 0 ==> !Refuses(old(db.Snapshot()), ids, rounds - 1, others))
              && r.deleted == GoneCount(old(db.Snapshot()), ids, rounds, others)
              && (r.more <==> 0 < |ids| == maxRows)
  {
    hide Apply, Run, Trace, PrunableRows, Refuses, GoneAt, Constraints, Collectable;
    ghost var was := db.Snapshot();
    PrunableExactly(was, cutoff);
    rounds := 0;
    TraceNothing(was, [], others);
    var doomed := Pick(PrunableRows(db.Snapshot(), cutoff), maxRows); // the select, in any order
    ids := doomed;
    TraceNothing(was, ids, others);
    if |doomed| == 0 {
      return Pruned(0, false), ids, rounds;
    }
    var deleted: nat, i: nat := 0, 0;
    while i < |doomed|
      invariant i == rounds * DELETE_CHUNK && (rounds - 1) * DELETE_CHUNK < |doomed|
      invariant db.Snapshot() == Run(was, Trace(ids, rounds, others)) && Constraints(db.Snapshot())
      invariant forall c :: 0 <= c < rounds ==> !Refuses(was, ids, c, others)
      invariant deleted == GoneCount(was, ids, rounds, others)
      decreases |doomed| - i
    {
      var gone, refused := DeleteChunk(db, was, doomed, i / DELETE_CHUNK, others);
      rounds := rounds + 1;
      if refused {
        return Thrown, ids, rounds;
      }
      deleted := deleted + gone;
      i := i + DELETE_CHUNK;
    }
    return Pruned(deleted, |doomed| >= maxRows), ids, rounds;
  }

  lemma {:induction false} TraceNothing(db: Db, ids: seq<MarketId>, others: nat -> seq<Step>)
    ensures Run(db, Trace(ids, 0, others)) == db
  {}

  /** With nobody writing in between, the selected rows all go, and nothing is refused. */
  lemma {:induction false} QuietTrace(
      was: Db, cutoff: int, ids: seq<MarketId>, c: nat, others: nat -> seq<Step>)
    requires (forall k :: others(k) == []) && Distinct(ids) && Elements(ids) <= PrunableRows(was, cutoff)
    ensures Run(was, Trace(ids, c, others)) == Without(was, Elements(ids[..Min(c * DELETE_CHUNK, |ids|)]))
    ensures GoneCount(was, ids, c, others) == Min(c * DELETE_CHUNK, |ids|)
    ensures c > 0 ==> !Refuses(was, ids, c - 1, others)
  {
    hide Apply, Run, Trace, PrunableRows, Without, GoneAt, Refuses, Elements, Distinct;
    if c == 0 {
      TraceNothing(was, ids, others);
      WithoutNothing(was);
      assert ids[..0] == [];
    } else {
      QuietTrace(was, cutoff, ids, c - 1, others);
      QuietRound(was, cutoff, ids, c - 1, others);
    }
  }

  lemma {:induction false} QuietRound(was: Db, cutoff: int, ids: seq<MarketId>, c: nat, others: nat -> seq<Step>)
    requires (forall k :: others(k) == []) && Distinct(ids) && Elements(ids) <= PrunableRows(was, cutoff)
    requires Run(was, Trace(ids, c, others)) == Without(was, Elements(ids[..Min(c * DELETE_CHUNK, |ids|)]))
    ensures var i, j := Min(c * DELETE_CHUNK, |ids|), Min((c + 1) * DELETE_CHUNK, |ids|);
            && Run(was, Trace(ids, c + 1, others)) == Without(was, Elements(ids[..j]))
            && |GoneAt(was, ids, c, others)| == j - i && !Refuses(was, ids, c, others)
  {
    hide Apply, Run, Trace, UpToDelete, PrunableRows, Without, Deletable, Elements, Distinct;
    var i, j := Min(c * DELETE_CHUNK, |ids|), Min((c + 1) * DELETE_CHUNK, |ids|);
    var start := Run(was, Trace(ids, c, others));
    ChunkIsRun(was, ids, c, others);
    RunNothing(start);
    RunNothing(Apply(start, PruneMetas(ChunkAt(ids, c))));
    assert i + (j - i) == j;
    QuietChunk(was, cutoff, ids, i, j - i);
  }

  lemma {:induction false} RunNothing(db: Db)
    ensures Run(db, []) == db
  {}

  lemma {:induction false} WithoutNothing(db: Db)
    ensures Without(db, {}) == db && Elements<MarketId>([]) == {}
  {
    assert Without(db, {}).markets == db.markets;
    assert Without(db, {}).metas == db.metas;
  }

  lemma {:induction false} RoundIsRun(was: Db, gap0: seq<Step>, s: Step, gap1: seq<Step>, t: Step)
    ensures Run(was, gap0 + [s] + gap1 + [t]) == Apply(Run(Apply(Run(was, gap0), s), gap1), t)
  {
    hide Apply;
    RunConcat(was, gap0 + [s] + gap1, [t]);
    RunConcat(was, gap0 + [s], gap1);
    RunConcat(was, gap0, [s]);
    RunOne(Run(was, gap0), s);
    RunOne(Run(Apply(Run(was, gap0), s), gap1), t);
  }

  lemma {:induction false} RunOne(db: Db, s: Step)
    ensures Run(db, [s]) == Apply(db, s)
  {
    hide Apply;
    assert [s][1..] == [];
    assert Run(Apply(db, s), []) == Apply(db, s);
  }

  lemma {:induction false} RunKeepsConstraints(db: Db, steps: seq<Step>)
    requires Constraints(db)
    ensures Constraints(Run(db, steps))
    decreases |steps|
  {
    hide Apply, Constraints;
    if steps != [] {
      StepKeepsConstraints(db, steps[0]);
      RunKeepsConstraints(Apply(db, steps[0]), steps[1..]);
    }
  }

  /** With nobody writing in between, a chunk of selected rows goes as a whole. */
  lemma {:induction false} QuietChunk(was: Db, cutoff: int, doomed: seq<MarketId>, i: nat, n: nat)
    requires i + n <= |doomed| && Distinct(doomed) && Elements(doomed) <= PrunableRows(was, cutoff)
    ensures var chunk := Elements(doomed[i..i + n]);
            var mid := Apply(Without(was, Elements(doomed[..i])), PruneMetas(chunk));
            && Deletable(mid, chunk) == chunk && |chunk| == n && chunk !! mid.metas.Keys
            && Apply(mid, PruneRows(chunk)) == Without(was, Elements(doomed[..i + n]))
  {
    hide Referred, Deletable, Apply, Without;
    var done, chunk := Elements(doomed[..i]), Elements(doomed[i..i + n]);
    ChunkOf(doomed, i, n);
    QuietDelete(was, done, chunk);
  }

  lemma {:induction false} ChunkOf(ids: seq<MarketId>, i: nat, n: nat)
    requires i + n <= |ids| && Distinct(ids)
    ensures var done, chunk := Elements(ids[..i]), Elements(ids[i..i + n]);
            && Elements(ids[..i + n]) == done + chunk && done !! chunk
            && chunk <= Elements(ids) && |chunk| == n
  {
    DistinctSize(ids[i..i + n]);
    assert ids[..i + n] == ids[..i] + ids[i..i + n];
    forall m | m in ids[i..i + n] ensures m in ids && m !in ids[..i] {
      var j :| 0 <= j < n && ids[i..i + n][j] == m;
      assert ids[i + j] == m;
    }
  }

  lemma {:induction false} QuietDelete(was: Db, done: set<MarketId>, chunk: set<MarketId>)
    requires forall m :: m in chunk ==> m in was.markets && !Referred(was, m) && m !in done
    ensures var mid := Apply(Without(was, done), PruneMetas(chunk));
            && Deletable(mid, chunk) == chunk && chunk !! mid.metas.Keys
            && Apply(mid, PruneRows(chunk)) == Without(was, done + chunk)
  {
    hide Referred;
    var mid := Apply(Without(was, done), PruneMetas(chunk));
    forall m | m in chunk ensures m in mid.markets && !Referred(mid, m) {
      SameReferrers(was, mid, m);
    }
    assert Deletable(mid, chunk) == chunk;
    var out := Apply(mid, PruneRows(chunk));
    assert out.markets == Without(was, done + chunk).markets;
    assert out.metas == Without(was, done + chunk).metas;
  }

  lemma {:induction false} SameReferrers(a: Db, b: Db, m: MarketId)
    requires a.bets == b.bets && a.events == b.events && a.attempts == b.attempts
    ensures Referred(a, m) == Referred(b, m)
  {}

  lemma {:induction false} PrunableAfter(was: Db, cutoff: int, gone: set<MarketId>)
    ensures PrunableRows(Without(was, gone), cutoff) == PrunableRows(was, cutoff) - gone
    ensures forall more: set<MarketId> :: Without(Without(was, gone), more) == Without(was, gone + more)
  {
    hide Referred;
    forall m ensures Referred(Without(was, gone), m) == Referred(was, m) {
      SameReferrers(was, Without(was, gone), m);
    }
    forall more: set<MarketId> ensures Without(Without(was, gone), more) == Without(was, gone + more) {
      assert Without(Without(was, gone), more).markets == Without(was, gone + more).markets;
      assert Without(Without(was, gone), more).metas == Without(was, gone + more).metas;
    }
  }

  /** Exactly the collectable rows are gone, with their metas; every other row and table is as it was. */
  ghost predicate Collected(was: Db, now: Db, cutoff: int) {
    && (forall m :: m in now.markets <==> m in was.markets && !Collectable(was, m, cutoff))
    && (forall m :: m in now.markets ==> now.markets[m] == was.markets[m])
    && (forall m :: m in now.metas <==> m in was.metas && !Collectable(was, m, cutoff))
    && (forall m :: m in now.metas ==> now.metas[m] == was.metas[m])
    && now.bets == was.bets && now.balances == was.balances && now.lots == was.lots
    && now.events == was.events && now.attempts == was.attempts && now.nextId == was.nextId
    && forall m :: !Collectable(now, m, cutoff)
  }

  lemma {:induction false} AllCollected(was: Db, cutoff: int)
    requires Constraints(was)
    ensures Collected(was, Without(was, PrunableRows(was, cutoff)), cutoff)
    ensures PrunableRows(was, cutoff) == set m | m in was.markets && Collectable(was, m, cutoff)
  {
    hide PrunableRows, Unnamed;
    var now := Without(was, PrunableRows(was, cutoff));
    PrunableExactly(was, cutoff);
    forall m ensures Unnamed(now, m) <==> Unnamed(was, m) {
      SameNames(was, now, m);
    }
  }

  lemma {:induction false} SameNames(a: Db, b: Db, m: MarketId)
    requires a.bets == b.bets && a.events == b.events && a.attempts == b.attempts
    ensures Unnamed(a, m) == Unnamed(b, m)
  {}

  /** What goes with chunk c: its rows that nothing names at that very statement. */
  lemma {:induction false} GoneExactly(was: Db, ids: seq<MarketId>, c: nat, others: nat -> seq<Step>, m: MarketId)
    ensures var mid := Run(was, UpToDelete(ids, c, others));
            m in GoneAt(was, ids, c, others) <==> m in ChunkAt(ids, c) && m in mid.markets && Unnamed(mid, m)
  {
    hide Run, UpToDelete, ChunkAt, Referred, Unnamed;
    UnnamedExactly(Run(was, UpToDelete(ids, c, others)), m);
  }

  /** The one-off cleanup: on a quiet table it stops with exactly the prunable rows gone, and counted. */
  method Drain(db: Database, cutoff: int) returns (total: nat)
    requires Constraints(db.Snapshot())
    modifies db
    ensures Collected(old(db.Snapshot()), db.Snapshot(), cutoff)
    ensures total == |set m | m in old(db.markets) && Collectable(old(db.Snapshot()), m, cutoff)|
  {
    hide Apply, Run, Trace, PrunableRows, Without, Constraints, GoneCount, Refuses, Elements, Distinct, Collected,
      Collectable;
    ghost var was := db.Snapshot();
    ghost var all := PrunableRows(was, cutoff);
    ghost var gone: set<MarketId> := {};
    total := 0;
    WithoutNothing(was);
    PrunableAfter(was, cutoff, gone);
    var more := true;
    while more
      invariant Constraints(db.Snapshot()) && gone <= all && total == |gone|
      invariant db.Snapshot() == Without(was, gone)
      invariant PrunableRows(db.Snapshot(), cutoff) == all - gone
      invariant !more ==> gone == all
      decreases more, |all - gone|
    {
      ghost var left := db.Snapshot();
      var r, ids, rounds := PruneMarkets(db, cutoff, PRUNE_MAX_ROWS, (k: nat) => []);
      QuietTrace(left, cutoff, ids, rounds, (k: nat) => []);
      ghost var doomed := Elements(ids);
      Whole(ids, rounds);
      DrainRound(was, cutoff, gone, doomed);
      gone := gone + doomed;
      total := total + r.deleted;
      if !r.more || r.deleted == 0 {
        more := false;
      }
    }
    AllCollected(was, cutoff);
  }

  lemma {:induction false} Whole(ids: seq<MarketId>, rounds: nat)
    requires Distinct(ids) && |ids| <= rounds * DELETE_CHUNK
    ensures ids[..Min(rounds * DELETE_CHUNK, |ids|)] == ids && |Elements(ids)| == |ids|
  {
    DistinctSize(ids);
  }

  lemma {:induction false} DrainRound(was: Db, cutoff: int, gone: set<MarketId>, doomed: set<MarketId>)
    requires var all := PrunableRows(was, cutoff); gone <= all && doomed <= all - gone
    ensures var all := PrunableRows(was, cutoff);
            && |gone + doomed| == |gone| + |doomed|
            && |all - (gone + doomed)| == |all - gone| - |doomed|
            && PrunableRows(Without(was, gone + doomed), cutoff) == all - (gone + doomed)
            && Without(Without(was, gone), doomed) == Without(was, gone + doomed)
  {
    hide PrunableRows, Without;
    PrunableAfter(was, cutoff, gone);
    PrunableAfter(was, cutoff, gone + doomed);
    ShrinksBy(PrunableRows(was, cutoff), gone, doomed);
  }

  lemma {:induction false} ShrinksBy(all: set<MarketId>, gone: set<MarketId>, doomed: set<MarketId>)
    requires gone <= all && doomed <= all - gone
    ensures |all - (gone + doomed)| == |all - gone| - |doomed|
  {
    assert all - gone == (all - (gone + doomed)) + doomed;
  }

  // ---------------------------------------------------------------- in any interleaving

  /** The last refresh of external market p among these steps gave it a deadline at or past the cutoff. */
  predicate Postponed(steps: seq<Step>, p: PolyId, cutoff: int)
    decreases |steps|
  {
    steps != [] &&
    var last := steps[|steps| - 1];
    if last.Upsert? && last.quote.poly == p then last.quote.deadline >= cutoff
    else Postponed(steps[..|steps| - 1], p, cutoff)
  }

  /** Step i refreshes p with such a deadline, and no later step refreshes p. */
  predicate PostponesAt(steps: seq<Step>, p: PolyId, cutoff: int, i: nat) {
    && i < |steps| && IsRefresh(steps[i], p) && steps[i].quote.deadline >= cutoff
    && forall j :: i < j < |steps| ==> !IsRefresh(steps[j], p)
  }

  lemma {:induction false} PostponedMeans(steps: seq<Step>, p: PolyId, cutoff: int)
    ensures Postponed(steps, p, cutoff) <==> exists i: nat :: PostponesAt(steps, p, cutoff, i)
    decreases |steps|
  {
    hide PostponesAt;
    if steps != [] {
      var n := |steps| - 1;
      PostponedMeans(steps[..n], p, cutoff);
      forall i: nat
        ensures PostponesAt(steps, p, cutoff, i) <==>
                if IsRefresh(steps[n], p) then i == n && steps[n].quote.deadline >= cutoff
                else PostponesAt(steps[..n], p, cutoff, i)
      {
        LastStepPostpones(steps, p, cutoff, i);
      }
      assert IsRefresh(steps[n], p) ==> (PostponesAt(steps, p, cutoff, n) <==> steps[n].quote.deadline >= cutoff);
    } else {
      forall i: nat ensures !PostponesAt(steps, p, cutoff, i) {
        NoStepPostpones(p, cutoff, i);
      }
    }
  }

  lemma {:induction false} NoStepPostpones(p: PolyId, cutoff: int, i: nat)
    ensures !PostponesAt([], p, cutoff, i)
  {}

  lemma {:induction false} LastStepPostpones(steps: seq<Step>, p: PolyId, cutoff: int, i: nat)
    requires steps != []
    ensures var n := |steps| - 1;
            PostponesAt(steps, p, cutoff, i) <==>
            if IsRefresh(steps[n], p) then i == n && steps[n].quote.deadline >= cutoff
            else PostponesAt(steps[..n], p, cutoff, i)
  {
    var n := |steps| - 1;
    assert forall j :: 0 <= j < n ==> steps[..n][j] == steps[j];
    if PostponesAt(steps, p, cutoff, i) && i < n {
      assert !IsRefresh(steps[n], p);
    }
  }

  predicate IsRefresh(s: Step, p: PolyId) { s.Upsert? && s.quote.poly == p }

  /**
   * A row expired at the select and still there after any steps of anybody is still expired, unless,
   * and only unless, the last refresh of that very market postponed it.
   */
  lemma {:induction false} StillExpired(db: Db, steps: seq<Step>, m: MarketId, cutoff: int)
    requires Constraints(db) && m in db.markets && db.markets[m].deadline < cutoff
    ensures var after := Run(db, steps);
            m in after.markets ==>
              && after.markets[m].poly == db.markets[m].poly
              && (after.markets[m].deadline < cutoff <==> !Postponed(steps, db.markets[m].poly, cutoff))
    decreases |steps|
  {
    hide Apply, Constraints, Run;
    if steps == [] {
      RunNothing(db);
    } else {
      var n := |steps| - 1;
      var prev, s := Run(db, steps[..n]), steps[n];
      assert steps == steps[..n] + [s];
      RunConcat(db, steps[..n], [s]);
      RunOne(prev, s);
      RunKeepsConstraints(db, steps[..n]);
      StillExpired(db, steps[..n], m, cutoff);
      if m in prev.markets {
        DeadlineStep(prev, s, m);
      } else {
        IdBelowNext(db, m);
        IdsKept(db, steps[..n], m);
        GoneStep(prev, s, m);
      }
    }
  }

  lemma {:induction false} IdBelowNext(db: Db, m: MarketId)
    requires Constraints(db) && m in db.markets
    ensures m < db.nextId
  {}

  lemma {:induction false} IdsKept(db: Db, steps: seq<Step>, m: MarketId)
    requires m < db.nextId
    ensures m < Run(db, steps).nextId
    decreases |steps|
  {
    hide Apply;
    if steps != [] {
      IdStep(db, steps[0]);
      IdsKept(Apply(db, steps[0]), steps[1..], m);
    }
  }

  lemma {:induction false} IdStep(db: Db, s: Step)
    ensures db.nextId <= Apply(db, s).nextId
  {
    hide CanBet, Referred, Deletable, RowOf;
  }

  /**
   * A chunk's delete takes only expired rows exactly when it is refused altogether, or no row that it
   * still finds unreferenced has been postponed since the select, whatever else has run in between.
   */
  lemma {:induction false} DeleteTakesExpired(db: Db, steps: seq<Step>, chunk: set<MarketId>, cutoff: int)
    requires Constraints(db) && chunk <= PrunableRows(db, cutoff)
    ensures var mid := Run(db, steps);
            OnlyExpiredGo(mid, chunk, cutoff) <==>
              || !(Deletable(mid, chunk) !! mid.metas.Keys)
              || forall m :: m in chunk && m in mid.markets && !Referred(mid, m) ==>
                   !Postponed(steps, db.markets[m].poly, cutoff)
  {
    hide Referred, Run, Postponed;
    var mid := Run(db, steps);
    forall m | m in chunk && m in mid.markets
      ensures mid.markets[m].deadline < cutoff <==> !Postponed(steps, db.markets[m].poly, cutoff)
    {
      StillExpired(db, steps, m, cutoff);
    }
    RowsDeleted(mid, chunk);
  }

  lemma {:induction false} RowsDeleted(db: Db, chunk: set<MarketId>)
    ensures var out := Apply(db, PruneRows(chunk));
            forall m :: m in db.markets ==>
              (m !in out.markets <==>
                 m in chunk && !Referred(db, m) && Deletable(db, chunk) !! db.metas.Keys)
  {
    hide Referred;
  }

  /** The same for every delete of a collection, on the statements it and the others have issued by then. */
  lemma {:induction false} CollectionTakesExpired(
      was: Db, cutoff: int, maxRows: nat, ids: seq<MarketId>, c: nat, others: nat -> seq<Step>)
    requires Constraints(was) && Selected(was, cutoff, maxRows, ids)
    ensures forall m :: m in GoneAt(was, ids, c, others) ==> m in was.markets
    ensures OnlyExpiredGo(Run(was, UpToDelete(ids, c, others)), ChunkAt(ids, c), cutoff) <==>
              || Refuses(was, ids, c, others)
              || forall m :: m in GoneAt(was, ids, c, others) ==>
                   !Postponed(UpToDelete(ids, c, others), was.markets[m].poly, cutoff)
  {
    hide Run, UpToDelete, Postponed, OnlyExpiredGo, Referred, Prunable;
    assert ChunkAt(ids, c) <= Elements(ids);
    DeleteTakesExpired(was, UpToDelete(ids, c, others), ChunkAt(ids, c), cutoff);
  }

  /** One step sets a deadline only by refreshing that very market. */
  lemma {:induction false} DeadlineStep(db: Db, s: Step, m: MarketId)
    requires Constraints(db) && m in db.markets
    ensures m in Apply(db, s).markets ==>
              && Apply(db, s).markets[m].poly == db.markets[m].poly
              && Apply(db, s).markets[m].deadline ==
                 if IsRefresh(s, db.markets[m].poly) then s.quote.deadline else db.markets[m].deadline
  {
    hide RowOf, CanBet, Referred, Deletable;
    if s.Upsert? {
      RefreshHits(db, s.quote, m);
    }
  }

  lemma {:induction false} RefreshHits(db: Db, q: Quote, m: MarketId)
    requires Constraints(db) && m in db.markets
    ensures RowOf(db.markets, q.poly, db.nextId) == Some(m) <==> q.poly == db.markets[m].poly
    ensures m < db.nextId
  {
    hide RowOf;
    var r := RowOf(db.markets, q.poly, db.nextId);
  }

  /** Ids are never reused: a deleted row comes back, if at all, as a different row. */
  lemma {:induction false} GoneStaysGone(db: Db, steps: seq<Step>, m: MarketId)
    requires m !in db.markets && m < db.nextId
    ensures m !in Run(db, steps).markets
    decreases |steps|
  {
    hide Apply;
    if steps != [] {
      GoneStep(db, steps[0], m);
      GoneStaysGone(Apply(db, steps[0]), steps[1..], m);
    }
  }

  lemma {:induction false} GoneStep(db: Db, s: Step, m: MarketId)
    requires m !in db.markets && m < db.nextId
    ensures m !in Apply(db, s).markets && m < Apply(db, s).nextId
  {
    hide CanBet, Referred, Deletable, RowOf;
    if s.Upsert? && RowOf(db.markets, s.quote.poly, db.nextId).Some? {
      assert RowOf(db.markets, s.quote.poly, db.nextId).value in db.markets;
    }
  }
}
