/**
 * The settlement sweep: a bounded pool of workers sharing a queue, each reading Gamma, then the chain
 * while the probe budget lasts, then settling. A schedule picks which worker moves next and what the
 * outside world answers; nothing below assumes anything about it.
 */
module Sweep {
  import opened Options
  import opened Tables
  import opened Ledger
  import opened Sums
  import opened Seqs

  const CHAIN_PROBES_PER_TICK := 25
  const SPORT_CHAIN_GRACE_MS := 3 * 3_600_000

  /** What `settleOne` is given; the list is sorted by deadline, oldest first. */
  datatype Item = Item(market: MarketId, source: Source, deadline: int, startsAt: Option<int>)

  datatype GammaMarket = GammaMarket(status: MarketStatus, outcome: Option<MarketOutcome>)

  function ToResolution(g: Option<GammaMarket>): Resolution {
    match g
    case None => Unresolved
    case Some(GammaMarket(RESOLVED, Some(OutcomeYes))) => Resolved(true)
    case Some(GammaMarket(RESOLVED, Some(OutcomeNo))) => Resolved(false)
    case _ => Unresolved
  }

  function ChainToResolution(o: Option<MarketOutcome>): Resolution {
    match o
    case Some(OutcomeYes) => Resolved(true)
    case Some(OutcomeNo) => Resolved(false)
    case Some(OutcomeInvalid) => Voided
    case None => Unresolved
  }

  predicate Overdue(it: Item, now: int) {
    it.source.POLYMARKET? && now >= it.deadline + (if it.startsAt.Some? then SPORT_CHAIN_GRACE_MS else 0)
  }

  /** When the chain may be asked, in plain numbers: past the deadline, for a match three hours past it. */
  predicate ChainTime(it: Item, now: int) {
    it.source == POLYMARKET && it.deadline <= now && (it.startsAt != None ==> it.deadline + 10_800_000 <= now)
  }

  /** Gamma's answer settles nothing: no market, not resolved, or not to YES or NO. */
  predicate NamesNothing(g: Option<GammaMarket>) {
    || g == None || g.value.status != RESOLVED
    || (g.value.outcome != Some(OutcomeYes) && g.value.outcome != Some(OutcomeNo))
  }

  lemma {:induction false} OverdueExactly(it: Item, now: int)
    ensures Overdue(it, now) <==> ChainTime(it, now)
  {}

  lemma {:induction false} OpenExactly(g: Option<GammaMarket>)
    ensures ToResolution(g).Unresolved? <==> NamesNothing(g)
  {}

  /** Where a worker is: between items, awaiting one of the three calls, or finished. */
  datatype Phase =
    | AtLoop
    | ReadingGamma(item: nat)
    | Probing(item: nat)
    | Settling(item: nat, resolution: Resolution)
    | Exited

  /** What the awaited call comes back with. */
  datatype Answer =
    | Throws
    | Gamma(market: Option<GammaMarket>, now: int)
    | Chain(outcome: Option<MarketOutcome>)
    | Committed(touchThrows: bool) // the settlement landed; stamping lastPolledAt may still throw

  datatype Pool = Pool(
    queue: seq<nat>,          // indices still to be shifted
    slots: seq<Phase>,        // one per worker
    probesLeft: nat,
    started: seq<nat>,        // in the order they were shifted
    ended: seq<nat>,          // in the order their calls returned or threw
    errors: seq<nat>,         // onError calls
    probed: seq<(nat, int)>,  // item and time of each probe granted
    refused: seq<nat>,        // eligible, but the budget was spent
    verdicts: seq<(nat, Resolution)>, // committed settlements
    rivals: set<nat>,         // in flight on Gamma when the last probe was granted
    startedThen: nat)         // how many items had been started by then

  function Indices(n: nat): seq<nat> { seq(n, i => i) }

  function Start(items: seq<Item>, limit: int): Pool {
    var w := if limit < |items| then limit else |items|;
    Pool(Indices(|items|), seq(if w < 0 then 0 else w, i => AtLoop), CHAIN_PROBES_PER_TICK,
         [], [], [], [], [], [], {}, 0)
  }

  function ItemOf(p: Phase): Option<nat> {
    match p
    case ReadingGamma(i) => Some(i)
    case Probing(i) => Some(i)
    case Settling(i, _) => Some(i)
    case _ => None
  }

  /** The answer is one the awaited call can give. */
  predicate Fits(ph: Phase, a: Answer) {
    match ph
    case ReadingGamma(_) => a.Throws? || a.Gamma?
    case Probing(_) => a.Throws? || a.Chain?
    case Settling(_, _) => a.Throws? || a.Committed?
    case _ => true
  }

  function End(p: Pool, w: nat, i: nat, error: bool): Pool
    requires w < |p.slots|
  {
    p.(slots := p.slots[w := AtLoop], ended := p.ended + [i], errors := if error then p.errors + [i] else p.errors)
  }

  /** Settle if there is something to settle, else the item is done. */
  function After(p: Pool, w: nat, i: nat, r: Resolution): Pool
    requires w < |p.slots|
  {
    if r.Unresolved? then End(p, w, i, false) else p.(slots := p.slots[w := Settling(i, r)])
  }

  function Readers(slots: seq<Phase>): set<nat> {
    set w: nat | w < |slots| && slots[w].ReadingGamma? :: slots[w].item
  }

  function Advance(items: seq<Item>, p: Pool, w: nat, a: Answer): Pool
    requires w < |p.slots| && Fits(p.slots[w], a)
    requires ItemOf(p.slots[w]).Some? ==> ItemOf(p.slots[w]).value < |items|
  {
    match p.slots[w]
    case Exited => p
    case AtLoop =>
      if p.queue == [] then p.(slots := p.slots[w := Exited])
      else
        p.(queue := p.queue[1..], started := p.started + [p.queue[0]],
           slots := p.slots[w := ReadingGamma(p.queue[0])])
    case ReadingGamma(i) =>
      if a.Throws? then End(p, w, i, true)
      else
        var r := ToResolution(a.market);
        if !r.Unresolved? || !Overdue(items[i], a.now) then After(p, w, i, r)
        else if p.probesLeft > 0 then
          p.(probesLeft := p.probesLeft - 1, probed := p.probed + [(i, a.now)],
             slots := p.slots[w := Probing(i)],
             rivals := Readers(p.slots) - {i}, startedThen := |p.started|)
        else End(p, w, i, false).(refused := p.refused + [i])
    case Probing(i) =>
      if a.Throws? then End(p, w, i, true) else After(p, w, i, ChainToResolution(a.outcome))
    case Settling(i, r) =>
      if a.Throws? then End(p, w, i, true)
      else End(p, w, i, a.touchThrows).(verdicts := p.verdicts + [(i, r)])
  }

  // ---------------------------------------------------------------- invariant

  /** Item i is with worker w. */
  predicate With(p: Pool, w: nat, i: nat) { w < |p.slots| && ItemOf(p.slots[w]) == Some(i) }

  /** Every item is queued, with exactly one worker, or ended, and never more than one of these. */
  ghost predicate Accounted(n: nat, p: Pool) {
    && p.started + p.queue == Indices(n)
    && Distinct(p.ended)
    && (forall i :: i in p.ended ==> i < |p.started|)
    && (forall w: nat, i: nat :: With(p, w, i) ==> i < |p.started| && i !in p.ended)
    && (forall w: nat, v: nat, i: nat :: With(p, w, i) && With(p, v, i) ==> w == v)
    && (forall i: nat :: i < |p.started| && i !in p.ended ==> exists w: nat :: With(p, w, i))
    && Distinct(p.errors) && (forall i :: i in p.errors ==> i in p.ended)
    && (forall v :: v in p.verdicts ==> v.0 in p.ended)
    && (forall j, k :: 0 <= j < k < |p.verdicts| ==> p.verdicts[j].0 != p.verdicts[k].0)
  }

  /** Probes are within budget, only for overdue items, one per item; refusals only once all are spent. */
  ghost predicate Budgeted(items: seq<Item>, p: Pool) {
    && |p.probed| + p.probesLeft == CHAIN_PROBES_PER_TICK
    && (forall j :: 0 <= j < |p.probed| ==> p.probed[j].0 < |p.started| && p.probed[j].0 < |items|
                                            && Overdue(items[p.probed[j].0], p.probed[j].1))
    && (forall j, k :: 0 <= j < k < |p.probed| ==> p.probed[j].0 != p.probed[k].0)
    && (forall j: nat, w: nat :: j < |p.probed| && w < |p.slots| ==> p.slots[w] != ReadingGamma(p.probed[j].0))
    && (p.refused != [] ==> p.probesLeft == 0)
    && (forall i :: i in p.refused ==> i in p.ended && i < |items| && items[i].source.POLYMARKET?)
    && (forall i, j :: i in p.refused && 0 <= j < |p.probed| ==> p.probed[j].0 != i)
  }

  /** Who can still be refused although a younger item was probed: the rivals of the last grant. */
  ghost predicate FewRivals(p: Pool) {
    && |p.rivals| < |p.slots| + (if p.probed == [] then 1 else 0)
    && p.startedThen <= |p.started|
    && (forall j :: 0 <= j < |p.probed| ==> p.probed[j].0 < p.startedThen)
    && (forall i :: i in p.refused ==> i in p.rivals || p.startedThen <= i)
    && (forall w: nat :: w < |p.slots| && p.slots[w].ReadingGamma? ==>
          p.slots[w].item in p.rivals || p.startedThen <= p.slots[w].item)
  }

  /** A worker leaves only when the queue is empty, and the queue never grows. */
  predicate ExitsWhenEmpty(p: Pool) {
    forall w: nat :: w < |p.slots| && p.slots[w].Exited? ==> p.queue == []
  }

  ghost predicate Valid(items: seq<Item>, p: Pool) {
    Accounted(|items|, p) && Budgeted(items, p) && FewRivals(p) && ExitsWhenEmpty(p)
  }

  lemma {:induction false} StartValid(items: seq<Item>, limit: int)
    ensures Valid(items, Start(items, limit))
  {
    assert [] + Indices(|items|) == Indices(|items|);
  }

  lemma {:induction false} InRange(items: seq<Item>, p: Pool)
    requires Accounted(|items|, p)
    ensures forall v: nat :: v < |p.slots| && ItemOf(p.slots[v]).Some? ==> ItemOf(p.slots[v]).value < |items|
    ensures |p.started| + |p.queue| == |items|
    ensures forall i :: 0 <= i < |p.started| ==> p.started[i] == i
    ensures p.queue != [] ==> p.queue[0] == |p.started|
  {
    assert |p.started + p.queue| == |items|;
    forall i | 0 <= i < |p.started| ensures p.started[i] == i {
      assert p.started[i] == (p.started + p.queue)[i];
    }
    if p.queue != [] {
      assert p.queue[0] == (p.started + p.queue)[|p.started|];
    }
    forall v: nat | v < |p.slots| && ItemOf(p.slots[v]).Some? ensures ItemOf(p.slots[v]).value < |items| {
      assert With(p, v, ItemOf(p.slots[v]).value);
    }
  }

  // ---------------------------------------------------------------- every step keeps it

  lemma {:induction false} SlotChanged(p: Pool, q: Pool, w: nat, ph: Phase)
    requires w < |p.slots| && q.slots == p.slots[w := ph]
    ensures forall v: nat, j: nat :: With(q, v, j) <==> if v == w then ItemOf(ph) == Some(j) else With(p, v, j)
  {}

  lemma {:induction false} SameHolders(n: nat, p: Pool, q: Pool)
    requires Accounted(n, p) && forall v: nat, j: nat :: With(q, v, j) <==> With(p, v, j)
    requires q.queue == p.queue && q.started == p.started && q.ended == p.ended
    requires q.errors == p.errors && q.verdicts == p.verdicts
    ensures Accounted(n, q)
  {
    hide With;
    forall j: nat | j < |q.started| && j !in q.ended ensures exists v: nat :: With(q, v, j) {
      var v: nat :| With(p, v, j);
      assert With(q, v, j);
    }
  }

  lemma {:induction false} ShiftAccounted(n: nat, p: Pool, w: nat)
    requires Accounted(n, p) && w < |p.slots| && p.slots[w].AtLoop? && p.queue != []
    ensures Accounted(n, p.(queue := p.queue[1..], started := p.started + [p.queue[0]],
                            slots := p.slots[w := ReadingGamma(p.queue[0])]))
  {
    var i := p.queue[0];
    var q := p.(queue := p.queue[1..], started := p.started + [i], slots := p.slots[w := ReadingGamma(i)]);
    assert p.started + p.queue == q.started + q.queue;
    assert i == |p.started| by {
      assert (p.started + p.queue)[|p.started|] == i;
    }
    SlotChanged(p, q, w, ReadingGamma(i));
    forall j: nat | j < |q.started| && j !in q.ended ensures exists v: nat :: With(q, v, j) {
      if j == i {
        assert With(q, w, j);
      } else {
        var v: nat :| With(p, v, j);
        assert With(q, v, j);
      }
    }
  }

  lemma {:induction false} EndAccounted(n: nat, p: Pool, w: nat, i: nat, error: bool)
    requires Accounted(n, p) && With(p, w, i)
    ensures Accounted(n, End(p, w, i, error))
  {
    var q := End(p, w, i, error);
    SlotChanged(p, q, w, AtLoop);
    forall j: nat | j < |q.started| && j !in q.ended ensures exists v: nat :: With(q, v, j) {
      assert j !in p.ended && j != i;
      var v: nat :| With(p, v, j);
      assert With(q, v, j);
    }
    forall j | j in q.ended ensures j < |q.started| {
      assert j in p.ended || j == i;
    }
  }

  lemma {:induction false} MoveAccounted(n: nat, p: Pool, w: nat, ph: Phase)
    requires Accounted(n, p) && w < |p.slots| && ItemOf(p.slots[w]).Some? && ItemOf(ph) == ItemOf(p.slots[w])
    ensures Accounted(n, p.(slots := p.slots[w := ph]))
  {
    var q := p.(slots := p.slots[w := ph]);
    SlotChanged(p, q, w, ph);
    SameHolders(n, p, q);
  }

  lemma {:induction false} ExitAccounted(n: nat, p: Pool, w: nat)
    requires Accounted(n, p) && w < |p.slots| && p.slots[w].AtLoop?
    ensures Accounted(n, p.(slots := p.slots[w := Exited]))
  {
    var q := p.(slots := p.slots[w := Exited]);
    SlotChanged(p, q, w, Exited);
    SameHolders(n, p, q);
  }

  lemma {:induction false} VerdictAccounted(n: nat, p: Pool, q: Pool, i: nat, r: Resolution)
    requires Accounted(n, p) && Accounted(n, q) && p.verdicts == q.verdicts
    requires i !in p.ended && i in q.ended
    ensures Accounted(n, q.(verdicts := q.verdicts + [(i, r)]))
  {
    var s := q.(verdicts := q.verdicts + [(i, r)]);
    assert forall v: nat, j: nat :: With(s, v, j) <==> With(q, v, j);
    hide With;
    forall j: nat | j < |s.started| && j !in s.ended ensures exists v: nat :: With(s, v, j) {
      var v: nat :| With(q, v, j);
      assert With(s, v, j);
    }
  }

  /** The log fields that accounting does not look at may change freely. */
  lemma {:induction false} LogAccounted(n: nat, p: Pool, q: Pool)
    requires Accounted(n, p)
    requires q.queue == p.queue && q.slots == p.slots && q.started == p.started && q.ended == p.ended
    requires q.errors == p.errors && q.verdicts == p.verdicts
    ensures Accounted(n, q)
  {
    assert forall v: nat, j: nat :: With(q, v, j) <==> With(p, v, j);
    SameHolders(n, p, q);
  }

  lemma {:induction false} AdvanceAccounted(items: seq<Item>, p: Pool, w: nat, a: Answer)
    requires Accounted(|items|, p) && w < |p.slots| && Fits(p.slots[w], a)
    ensures ItemOf(p.slots[w]).Some? ==> ItemOf(p.slots[w]).value < |items|
    ensures Accounted(|items|, Advance(items, p, w, a))
  {
    InRange(items, p);
    hide Accounted, Overdue, ToResolution, ChainToResolution, Readers;
    var n := |items|;
    match p.slots[w]
    case Exited =>
    case AtLoop =>
      if p.queue == [] {
        ExitAccounted(n, p, w);
      } else {
        ShiftAccounted(n, p, w);
      }
    case ReadingGamma(i) =>
      EndAccounted(n, p, w, i, a.Throws?);
      if a.Gamma? {
        var r := ToResolution(a.market);
        if !r.Unresolved? {
          MoveAccounted(n, p, w, Settling(i, r));
        } else if Overdue(items[i], a.now) && p.probesLeft > 0 {
          MoveAccounted(n, p, w, Probing(i));
          LogAccounted(n, p.(slots := p.slots[w := Probing(i)]), Advance(items, p, w, a));
        } else {
          LogAccounted(n, End(p, w, i, false), End(p, w, i, false).(refused := p.refused + [i]));
        }
      }
    case Probing(i) =>
      EndAccounted(n, p, w, i, a.Throws?);
      if a.Chain? && !ChainToResolution(a.outcome).Unresolved? {
        MoveAccounted(n, p, w, Settling(i, ChainToResolution(a.outcome)));
      }
    case Settling(i, r) =>
      var error := a.Throws? || a.touchThrows;
      EndAccounted(n, p, w, i, error);
      NotEnded(n, p, w, i);
      VerdictAccounted(n, p, End(p, w, i, error), i, r);
  }

  lemma {:induction false} NotEnded(n: nat, p: Pool, w: nat, i: nat)
    requires Accounted(n, p) && With(p, w, i)
    ensures i !in p.ended
  {}

  lemma {:induction false} ReadersFew(slots: seq<Phase>)
    ensures |Readers(slots)| <= |slots|
  {
    if slots == [] {
      assert Readers(slots) == {};
    } else {
      var n := |slots| - 1;
      var front := slots[..n];
      ReadersFew(front);
      var last := if slots[n].ReadingGamma? then {slots[n].item} else {};
      forall i | i in Readers(slots) ensures i in Readers(front) + last {
        var w: nat :| w < |slots| && slots[w].ReadingGamma? && slots[w].item == i;
        assert w < n ==> front[w] == slots[w];
      }
      SubsetSize(Readers(slots), Readers(front) + last);
    }
  }

  /** A slot leaves Gamma or never was there, and the log only says that more has ended. */
  predicate Quiet(p: Pool, q: Pool, w: nat) {
    && w < |p.slots| && |q.slots| == |p.slots|
    && (forall v: nat :: v < |p.slots| && v != w ==> q.slots[v] == p.slots[v])
    && !q.slots[w].ReadingGamma?
    && q.started == p.started && p.ended <= q.ended
    && q.probed == p.probed && q.probesLeft == p.probesLeft && q.refused == p.refused
    && q.rivals == p.rivals && q.startedThen == p.startedThen
  }

  lemma {:induction false} QuietKeeps(items: seq<Item>, p: Pool, q: Pool, w: nat)
    requires Quiet(p, q, w) && Budgeted(items, p) && FewRivals(p)
    ensures Budgeted(items, q) && FewRivals(q)
  {
    hide Overdue;
    assert forall i :: i in p.ended ==> i in q.ended;
  }

  lemma {:induction false} ShiftKeeps(items: seq<Item>, p: Pool, w: nat)
    requires Valid(items, p) && w < |p.slots| && p.slots[w].AtLoop? && p.queue != []
    ensures var q := p.(queue := p.queue[1..], started := p.started + [p.queue[0]],
                        slots := p.slots[w := ReadingGamma(p.queue[0])]);
            Budgeted(items, q) && FewRivals(q)
  {
    InRange(items, p);
    hide Overdue, Accounted;
  }

  lemma {:induction false} GrantKeeps(items: seq<Item>, p: Pool, w: nat, i: nat, now: int)
    requires Valid(items, p) && w < |p.slots| && p.slots[w] == ReadingGamma(i) && i < |items|
    requires p.probesLeft > 0 && Overdue(items[i], now)
    ensures var q := p.(probesLeft := p.probesLeft - 1, probed := p.probed + [(i, now)],
                        slots := p.slots[w := Probing(i)],
                        rivals := Readers(p.slots) - {i}, startedThen := |p.started|);
            Budgeted(items, q) && FewRivals(q)
  {
    HolderStarted(items, p, w, i);
    HeldAlone(items, p, w, i);
    ReadersFew(p.slots);
    hide Overdue, Accounted;
    assert i in Readers(p.slots);
  }

  lemma {:induction false} RefuseKeeps(items: seq<Item>, p: Pool, w: nat, i: nat)
    requires Valid(items, p) && w < |p.slots| && p.slots[w] == ReadingGamma(i) && p.probesLeft == 0
    requires i < |items| && items[i].source.POLYMARKET?
    ensures var q := End(p, w, i, false).(refused := p.refused + [i]);
            Budgeted(items, q) && FewRivals(q)
  {
    hide Overdue, Accounted;
  }

  lemma {:induction false} AdvanceBudgeted(items: seq<Item>, p: Pool, w: nat, a: Answer)
    requires Valid(items, p) && w < |p.slots| && Fits(p.slots[w], a)
    requires ItemOf(p.slots[w]).Some? ==> ItemOf(p.slots[w]).value < |items|
    ensures Budgeted(items, Advance(items, p, w, a)) && FewRivals(Advance(items, p, w, a))
  {
    hide Accounted, Budgeted, FewRivals, Overdue, ToResolution, ChainToResolution, Readers;
    var q := Advance(items, p, w, a);
    if p.slots[w].AtLoop? && p.queue != [] {
      ShiftKeeps(items, p, w);
    } else if q.probed != p.probed {
      GrantKeeps(items, p, w, p.slots[w].item, a.now);
    } else if q.refused != p.refused {
      OverdueIsPolymarket(items[p.slots[w].item], a.now);
      RefuseKeeps(items, p, w, p.slots[w].item);
    } else {
      QuietKeeps(items, p, q, w);
    }
  }

  lemma {:induction false} OverdueIsPolymarket(it: Item, now: int)
    requires Overdue(it, now)
    ensures it.source.POLYMARKET?
  {}

  lemma {:induction false} HolderStarted(items: seq<Item>, p: Pool, w: nat, i: nat)
    requires Accounted(|items|, p) && With(p, w, i)
    ensures i < |p.started| && i !in p.ended
  {}

  lemma {:induction false} HeldAlone(items: seq<Item>, p: Pool, w: nat, i: nat)
    requires Accounted(|items|, p) && With(p, w, i)
    ensures forall v: nat :: v < |p.slots| && v != w ==> ItemOf(p.slots[v]) != Some(i)
  {
    forall v: nat | v < |p.slots| && v != w ensures ItemOf(p.slots[v]) != Some(i) {
      assert With(p, v, i) ==> v == w;
    }
  }

  /** Every move of every worker, whatever the answer, keeps the whole invariant. */
  lemma {:induction false} AdvanceValid(items: seq<Item>, p: Pool, w: nat, a: Answer)
    requires Valid(items, p) && w < |p.slots| && Fits(p.slots[w], a)
    ensures ItemOf(p.slots[w]).Some? ==> ItemOf(p.slots[w]).value < |items|
    ensures Valid(items, Advance(items, p, w, a)) && |Advance(items, p, w, a).slots| == |p.slots|
  {
    hide Fits, Accounted, Budgeted, FewRivals;
    InRange(items, p);
    AdvanceAccounted(items, p, w, a);
    AdvanceBudgeted(items, p, w, a);
    ExitKept(items, p, w, a);
  }

  lemma {:induction false} ExitKept(items: seq<Item>, p: Pool, w: nat, a: Answer)
    requires ExitsWhenEmpty(p) && w < |p.slots| && Fits(p.slots[w], a)
    requires ItemOf(p.slots[w]).Some? ==> ItemOf(p.slots[w]).value < |items|
    ensures ExitsWhenEmpty(Advance(items, p, w, a)) && |Advance(items, p, w, a).slots| == |p.slots|
  {
    hide Overdue, ToResolution, ChainToResolution, Readers;
    var q := Advance(items, p, w, a);
    assert forall v: nat :: v < |p.slots| && v != w ==> q.slots[v] == p.slots[v];
  }

  // ---------------------------------------------------------------- how long it can take

  function Weight(): Phase -> int {
    (ph: Phase) =>
      match ph
      case Exited => 0
      case AtLoop => 1
      case Settling(_, _) => 2
      case Probing(_) => 3
      case ReadingGamma(_) => 4
  }

  /** Moves left at most: four for an item not yet started, and one for each worker to leave. */
  function Remaining(p: Pool): (r: nat) {
    SumNonneg(p.slots, Weight());
    4 * |p.queue| + Sum(p.slots, Weight())
  }

  lemma {:induction false} AdvanceShrinks(items: seq<Item>, p: Pool, w: nat, a: Answer)
    requires w < |p.slots| && Fits(p.slots[w], a) && !p.slots[w].Exited?
    requires ItemOf(p.slots[w]).Some? ==> ItemOf(p.slots[w]).value < |items|
    ensures Remaining(Advance(items, p, w, a)) < Remaining(p)
  {
    hide Overdue, ToResolution, ChainToResolution, Readers, Sum;
    var q := Advance(items, p, w, a);
    assert forall v: nat :: v < |p.slots| && v != w ==> q.slots[v] == p.slots[v];
    SumChange(p.slots, q.slots, w, Weight());
  }

  lemma {:induction false} StartRemaining(items: seq<Item>, limit: int)
    ensures Remaining(Start(items, limit)) == 4 * |items| + |Start(items, limit).slots|
  {
    SumOfLoops(Start(items, limit).slots);
  }

  lemma {:induction false} SumOfLoops(slots: seq<Phase>)
    requires forall w: nat :: w < |slots| ==> slots[w].AtLoop?
    ensures Sum(slots, Weight()) == |slots|
  {
    if slots != [] {
      SumOfLoops(slots[..|slots| - 1]);
    }
  }

  // ---------------------------------------------------------------- the pool as it runs

  predicate AllExited(p: Pool) { forall w: nat :: w < |p.slots| ==> p.slots[w].Exited? }

  /** The queue, the workers and the budget are shared; each move updates them in place. */
  class Workers {
    const items: seq<Item>
    var pool: Pool

    constructor (items: seq<Item>, limit: int)
      ensures this.items == items && pool == Start(items, limit)
    {
      this.items := items;
      pool := Start(items, limit);
    }

    method Move(w: nat, a: Answer)
      requires Valid(items, pool) && w < |pool.slots| && Fits(pool.slots[w], a)
      modifies this
      ensures Valid(items, pool) && |pool.slots| == |old(pool).slots|
      ensures ItemOf(old(pool).slots[w]).Some? ==> ItemOf(old(pool).slots[w]).value < |items|
      ensures pool == Advance(items, old(pool), w, a)
    {
      AdvanceValid(items, pool, w, a);
      pool := Advance(items, pool, w, a);
    }
  }

  /** Worker w moves: it takes the next item, or gets this answer to the call it awaits. */
  datatype Move = Move(worker: nat, answer: Answer)

  predicate Possible(items: seq<Item>, p: Pool, v: Move) {
    && v.worker < |p.slots| && Fits(p.slots[v.worker], v.answer)
    && (ItemOf(p.slots[v.worker]).Some? ==> ItemOf(p.slots[v.worker]).value < |items|)
  }

  /** A whole schedule; a move that is not possible when its turn comes does nothing. */
  function Play(items: seq<Item>, p: Pool, ms: seq<Move>): Pool
    decreases |ms|
  {
    if ms == [] then p
    else
      var m, v := Play(items, p, ms[..|ms| - 1]), ms[|ms| - 1];
      if Possible(items, m, v) then Advance(items, m, v.worker, v.answer) else m
  }

  /** The invariant holds in every state any schedule reaches. */
  lemma {:induction false} ReachableValid(items: seq<Item>, p: Pool, ms: seq<Move>)
    requires Valid(items, p)
    ensures Valid(items, Play(items, p, ms)) && |Play(items, p, ms).slots| == |p.slots|
    decreases |ms|
  {
    hide Valid, Advance, Fits;
    if ms != [] {
      var n := |ms| - 1;
      ReachableValid(items, p, ms[..n]);
      var m := Play(items, p, ms[..n]);
      if Possible(items, m, ms[n]) {
        AdvanceValid(items, m, ms[n].worker, ms[n].answer);
      }
    }
  }

  lemma {:induction false} PlayOneMore(items: seq<Item>, p: Pool, ms: seq<Move>, v: Move)
    ensures Play(items, p, ms + [v]) ==
            var m := Play(items, p, ms);
            if Possible(items, m, v) then Advance(items, m, v.worker, v.answer) else m
  {
    assert (ms + [v])[..|ms|] == ms;
  }

  /**
   * mapLimit over settleOne, under any schedule and any answers: it ends within 4n + w moves, with
   * every item started in queue order and ended exactly once.
   */
  method MapLimit(items: seq<Item>, limit: int) returns (p: Pool, ghost moves: seq<Move>)
    ensures p == Play(items, Start(items, limit), moves) && Valid(items, p) && AllExited(p)
    ensures |p.slots| == (if limit <= 0 then 0 else if limit < |items| then limit else |items|)
    ensures |moves| <= 4 * |items| + |p.slots|
    ensures limit >= 1 ==> p.started == Indices(|items|) && multiset(p.ended) == multiset(Indices(|items|))
    ensures limit <= 0 ==> p.started == [] == p.ended
  {
    hide Advance, Valid, Fits, Play;
    var workers := new Workers(items, limit);
    StartValid(items, limit);
    StartRemaining(items, limit);
    moves := [];
    NoMovesYet(items, Start(items, limit));
    while !AllExited(workers.pool)
      invariant Valid(items, workers.pool) && workers.items == items
      invariant |workers.pool.slots| == |Start(items, limit).slots|
      invariant workers.pool == Play(items, Start(items, limit), moves)
      invariant |moves| + Remaining(workers.pool) <= 4 * |items| + |workers.pool.slots|
      invariant workers.pool.slots == [] ==> workers.pool == Start(items, limit)
      decreases Remaining(workers.pool)
    {
      var w: nat :| w < |workers.pool.slots| && !workers.pool.slots[w].Exited?;
      AlwaysFits(workers.pool.slots[w]);
      var a: Answer :| Fits(workers.pool.slots[w], a);
      ghost var was := workers.pool;
      workers.Move(w, a);
      AdvanceShrinks(items, was, w, a);
      PlayOneMore(items, Start(items, limit), moves, Move(w, a));
      moves := moves + [Move(w, a)];
    }
    p := workers.pool;
    if limit >= 1 {
      AllDone(items, p);
    }
  }

  lemma {:induction false} NoMovesYet(items: seq<Item>, p: Pool)
    ensures Play(items, p, []) == p
  {}

  lemma {:induction false} AlwaysFits(ph: Phase)
    ensures Fits(ph, Throws)
  {}

  lemma {:induction false} AllDone(items: seq<Item>, p: Pool)
    requires Valid(items, p) && AllExited(p) && (|p.slots| > 0 || items == [])
    ensures p.started == Indices(|items|) && multiset(p.ended) == multiset(Indices(|items|))
  {
    InRange(items, p);
    if |p.slots| > 0 {
      assert p.slots[0].Exited?;
    }
    assert p.queue == [];
    assert p.started + [] == p.started;
    forall i: nat | i < |items| ensures i in p.ended {
      assert forall w: nat :: !With(p, w, i);
    }
    forall i: nat ensures i in p.ended <==> i in Indices(|items|) {
      if i < |items| {
        assert Indices(|items|)[i] == i;
      }
    }
    SameElements(p.ended, Indices(|items|));
  }

  // ---------------------------------------------------------------- what follows at any moment

  /** Never more items in flight than workers, whatever the schedule has done so far. */
  lemma {:induction false} InFlightBound(items: seq<Item>, limit: int, ms: seq<Move>, flying: set<nat>)
    requires forall i :: i in flying ==> exists w: nat :: With(Play(items, Start(items, limit), ms), w, i)
    ensures |flying| <= (if limit <= 0 then 0 else if limit < |items| then limit else |items|)
  {
    hide Play, Valid;
    var p := Play(items, Start(items, limit), ms);
    StartValid(items, limit);
    ReachableValid(items, Start(items, limit), ms);
    var held := set w: nat | w < |p.slots| && ItemOf(p.slots[w]).Some? :: ItemOf(p.slots[w]).value;
    forall i | i in flying ensures i in held {
      var w: nat :| With(p, w, i);
      assert ItemOf(p.slots[w]).value in held;
    }
    SubsetSize(flying, held);
    HeldFew(p.slots);
  }

  lemma {:induction false} HeldFew(slots: seq<Phase>)
    ensures |set w: nat | w < |slots| && ItemOf(slots[w]).Some? :: ItemOf(slots[w]).value| <= |slots|
  {
    var held := set w: nat | w < |slots| && ItemOf(slots[w]).Some? :: ItemOf(slots[w]).value;
    if slots == [] {
      assert held == {};
    } else {
      var n := |slots| - 1;
      var front := slots[..n];
      HeldFew(front);
      var less := set w: nat | w < |front| && ItemOf(front[w]).Some? :: ItemOf(front[w]).value;
      var last := if ItemOf(slots[n]).Some? then {ItemOf(slots[n]).value} else {};
      forall i | i in held ensures i in less + last {
        var w: nat :| w < |slots| && ItemOf(slots[w]).Some? && ItemOf(slots[w]).value == i;
        if w < n {
          assert front[w] == slots[w];
          assert ItemOf(front[w]).value in less;
        }
      }
      SubsetSize(held, less + last);
    }
  }

  /** At most 25 probes a sweep; an overdue market goes without one only after all are granted. */
  lemma {:induction false} ProbeBudget(items: seq<Item>, limit: int, ms: seq<Move>)
    ensures var p := Play(items, Start(items, limit), ms);
            && |p.probed| <= 25
            && (p.refused != [] ==> |p.probed| == 25)
            && (forall j :: 0 <= j < |p.probed| ==>
                  p.probed[j].0 < |items| && ChainTime(items[p.probed[j].0], p.probed[j].1))
            && forall j, k :: 0 <= j < k < |p.probed| ==> p.probed[j].0 != p.probed[k].0
  {
    hide Play, Start, Overdue, ChainTime, Accounted, FewRivals;
    StartValid(items, limit);
    ReachableValid(items, Start(items, limit), ms);
    var p := Play(items, Start(items, limit), ms);
    forall j | 0 <= j < |p.probed|
      ensures p.probed[j].0 < |items| && ChainTime(items[p.probed[j].0], p.probed[j].1)
    {
      OverdueExactly(items[p.probed[j].0], p.probed[j].1);
    }
  }

  /** The refused items that are older than some item that was granted a probe. */
  function Overtaken(p: Pool): set<nat> {
    set i | i in p.refused && exists j :: 0 <= j < |p.probed| && i < p.probed[j].0
  }

  /**
   * The oldest markets do not strictly get the budget first, but nearly: fewer markets than there
   * are workers can be refused although a younger one was probed. With one worker there are none.
   */
  lemma {:induction false} OvertakenFew(items: seq<Item>, limit: int, ms: seq<Move>)
    requires limit >= 1 && items != []
    ensures var p := Play(items, Start(items, limit), ms);
            |Overtaken(p)| < (if limit < |items| then limit else |items|)
  {
    hide Play, Accounted, Budgeted;
    StartValid(items, limit);
    ReachableValid(items, Start(items, limit), ms);
    FewOvertaken(Play(items, Start(items, limit), ms));
  }

  /** The Polymarket items from k on: the ones a sweep may ask the chain about. */
  function PolymarketFrom(items: seq<Item>, k: nat): set<nat> {
    set i: nat | k <= i < |items| && items[i].source.POLYMARKET?
  }

  lemma {:induction false} PolymarketStep(items: seq<Item>, k: nat)
    requires k < |items|
    ensures |PolymarketFrom(items, k)| ==
            |PolymarketFrom(items, k + 1)| + (if items[k].source.POLYMARKET? then 1 else 0)
  {
    if items[k].source.POLYMARKET? {
      assert PolymarketFrom(items, k) == PolymarketFrom(items, k + 1) + {k};
    } else {
      assert PolymarketFrom(items, k) == PolymarketFrom(items, k + 1);
    }
  }

  /** Whoever is overtaken stands beside 25 others that were probed. */
  lemma {:induction false} OvertakenNeedsMany(items: seq<Item>, p: Pool)
    requires Valid(items, p) && Overtaken(p) != {}
    ensures |PolymarketFrom(items, 0)| > CHAIN_PROBES_PER_TICK
  {
    hide Accounted, FewRivals;
    var i :| i in Overtaken(p);
    var probed := seq(|p.probed|, j requires 0 <= j < |p.probed| => p.probed[j].0);
    DistinctSize(probed);
    forall x | x in Elements(probed) + {i} ensures x in PolymarketFrom(items, 0) {
      if x != i {
        var j :| 0 <= j < |probed| && probed[j] == x;
        OverdueIsPolymarket(items[p.probed[j].0], p.probed[j].1);
      }
    }
    SubsetSize(Elements(probed) + {i}, PolymarketFrom(items, 0));
    assert i !in Elements(probed);
  }

  lemma {:induction false} FewOvertaken(p: Pool)
    requires FewRivals(p)
    ensures p.slots != [] ==> |Overtaken(p)| < |p.slots|
    ensures p.slots == [] ==> Overtaken(p) == {}
  {
    forall i | i in Overtaken(p) ensures i in p.rivals {
      var j :| 0 <= j < |p.probed| && i < p.probed[j].0;
      assert p.probed[j].0 < p.startedThen;
    }
    SubsetSize(Overtaken(p), p.rivals);
    if p.probed == [] {
      assert Overtaken(p) == {};
    }
  }

  // ---------------------------------------------------------------- the money

  function LedgerVerdicts(items: seq<Item>, vs: seq<(nat, Resolution)>): seq<Ledger.Verdict>
    requires forall v :: v in vs ==> v.0 < |items|
  {
    seq(|vs|, j requires 0 <= j < |vs| => Ledger.Verdict(items[vs[j].0].market, vs[j].1))
  }

  lemma {:induction false} VerdictsInRange(items: seq<Item>, p: Pool)
    requires Valid(items, p)
    ensures forall v :: v in p.verdicts ==> v.0 < |items|
  {
    InRange(items, p);
  }

  /**
   * Two sweeps in which every market got the same verdict leave the same bets and balances, however
   * differently their workers were interleaved.
   */
  lemma {:induction false} SweepsAgree(
      items: seq<Item>, limit: int, ms: seq<Move>, limit2: int, ms2: seq<Move>, k: Books)
    requires Provisioned(k) && forall i, j :: 0 <= i < j < |items| ==> items[i].market != items[j].market
    requires var p, q := Play(items, Start(items, limit), ms), Play(items, Start(items, limit2), ms2);
             forall v :: v in p.verdicts <==> v in q.verdicts
    ensures var p, q := Play(items, Start(items, limit), ms), Play(items, Start(items, limit2), ms2);
            && (forall v :: v in p.verdicts ==> v.0 < |items|)
            && (forall v :: v in q.verdicts ==> v.0 < |items|)
            && SettleAll(k, LedgerVerdicts(items, p.verdicts)) == SettleAll(k, LedgerVerdicts(items, q.verdicts))
  {
    hide SettleAll, Provisioned, Valid, Play, Start, LedgerVerdicts;
    StartValid(items, limit);
    StartValid(items, limit2);
    ReachableValid(items, Start(items, limit), ms);
    ReachableValid(items, Start(items, limit2), ms2);
    PoolsAgree(items, Play(items, Start(items, limit), ms), Play(items, Start(items, limit2), ms2), k);
  }

  lemma {:induction false} PoolsAgree(items: seq<Item>, p: Pool, q: Pool, k: Books)
    requires Valid(items, p) && Valid(items, q) && Provisioned(k)
    requires forall i, j :: 0 <= i < j < |items| ==> items[i].market != items[j].market
    requires forall v :: v in p.verdicts <==> v in q.verdicts
    ensures (forall v :: v in p.verdicts ==> v.0 < |items|) && (forall v :: v in q.verdicts ==> v.0 < |items|)
    ensures SettleAll(k, LedgerVerdicts(items, p.verdicts)) == SettleAll(k, LedgerVerdicts(items, q.verdicts))
  {
    hide SettleAll, Provisioned, Budgeted, FewRivals;
    VerdictsInRange(items, p);
    VerdictsInRange(items, q);
    var vs, ws := LedgerVerdicts(items, p.verdicts), LedgerVerdicts(items, q.verdicts);
    SameMembers(items, p.verdicts, q.verdicts);
    SameMembers(items, q.verdicts, p.verdicts);
    assert Distinct(vs) && Distinct(ws);
    SameElements(vs, ws);
    SettleAllAnyOrder(k, vs, ws);
  }

  lemma {:induction false} SameMembers(items: seq<Item>, a: seq<(nat, Resolution)>, b: seq<(nat, Resolution)>)
    requires (forall v :: v in a ==> v.0 < |items|) && (forall v :: v in b ==> v.0 < |items|)
    requires forall v :: v in a ==> v in b
    ensures forall v :: v in LedgerVerdicts(items, a) ==> v in LedgerVerdicts(items, b)
  {
    forall v | v in LedgerVerdicts(items, a) ensures v in LedgerVerdicts(items, b) {
      var j :| 0 <= j < |a| && LedgerVerdicts(items, a)[j] == v;
      assert a[j] in b;
      var l :| 0 <= l < |b| && b[l] == a[j];
      assert LedgerVerdicts(items, b)[l] == v;
    }
  }

  // ---------------------------------------------------------------- the logs, against the schedule

  /** Move k of the schedule reaches a worker that holds item i. */
  predicate Reaches(items: seq<Item>, p: Pool, ms: seq<Move>, k: nat, i: nat) {
    && k < |ms| && Possible(items, Play(items, p, ms[..k]), ms[k])
    && ItemOf(SlotAt(items, p, ms, k)) == Some(i)
  }

  /** What the worker of move k was waiting for. */
  function SlotAt(items: seq<Item>, p: Pool, ms: seq<Move>, k: nat): Phase
    requires k < |ms| && Possible(items, Play(items, p, ms[..k]), ms[k])
  {
    Play(items, p, ms[..k]).slots[ms[k].worker]
  }

  /** Move k makes the call on item i throw. */
  predicate ThrowsOn(items: seq<Item>, p: Pool, ms: seq<Move>, k: nat, i: nat) {
    Reaches(items, p, ms, k, i) && (ms[k].answer.Throws? || ms[k].answer == Committed(true))
  }

  /** Move k commits the settlement of item i with resolution r. */
  predicate CommitsOn(items: seq<Item>, p: Pool, ms: seq<Move>, k: nat, i: nat, r: Resolution) {
    Reaches(items, p, ms, k, i) && ms[k].answer.Committed? && SlotAt(items, p, ms, k) == Settling(i, r)
  }

  /** Move k is Gamma or the chain saying that item i has come to r. */
  predicate ReportsOn(items: seq<Item>, p: Pool, ms: seq<Move>, k: nat, i: nat, r: Resolution) {
    && Reaches(items, p, ms, k, i)
    && match ms[k].answer
       case Gamma(g, _) => ToResolution(g) == r
       case Chain(o) => ChainToResolution(o) == r
       case _ => false
  }

  /** Move k is Gamma saying that item i, though overdue, is still open. */
  predicate OpenAndOverdue(items: seq<Item>, p: Pool, ms: seq<Move>, k: nat, i: nat) {
    && Reaches(items, p, ms, k, i) && i < |items| && SlotAt(items, p, ms, k).ReadingGamma?
    && ms[k].answer.Gamma? && NamesNothing(ms[k].answer.market) && ChainTime(items[i], ms[k].answer.now)
  }

  predicate WasProbed(p: Pool, i: nat) { exists j :: 0 <= j < |p.probed| && p.probed[j].0 == i }

  /** What one move adds to each log. */
  lemma {:induction false} AdvanceLogs(items: seq<Item>, p: Pool, w: nat, a: Answer)
    requires Possible(items, p, Move(w, a))
    ensures var q, it := Advance(items, p, w, a), ItemOf(p.slots[w]);
            && q.errors == p.errors + (if it.Some? && (a.Throws? || a == Committed(true)) then [it.value] else [])
            && q.verdicts == p.verdicts +
                 (if p.slots[w].Settling? && a.Committed? then [(p.slots[w].item, p.slots[w].resolution)] else [])
            && (forall i: nat :: i in q.refused || WasProbed(q, i) <==>
                 || i in p.refused || WasProbed(p, i)
                 || (&& it == Some(i) && p.slots[w].ReadingGamma? && a.Gamma?
                     && ToResolution(a.market).Unresolved? && Overdue(items[i], a.now)))
  {
    hide Overdue, ToResolution, ChainToResolution, Readers, WasProbed;
    var q := Advance(items, p, w, a);
    if q.probed != p.probed {
      ProbedOneMore(p, q, p.slots[w].item, a.now);
    } else {
      SameProbes(p, q);
    }
  }

  lemma {:induction false} ProbedOneMore(p: Pool, q: Pool, i: nat, now: int)
    requires q.probed == p.probed + [(i, now)]
    ensures forall j: nat :: WasProbed(q, j) <==> WasProbed(p, j) || j == i
  {
    forall j: nat | WasProbed(p, j) || j == i ensures WasProbed(q, j) {
      if j == i {
        assert q.probed[|p.probed|].0 == i;
      } else {
        var l :| 0 <= l < |p.probed| && p.probed[l].0 == j;
        assert q.probed[l].0 == j;
      }
    }
  }

  lemma {:induction false} SameProbes(p: Pool, q: Pool)
    requires q.probed == p.probed
    ensures forall j: nat :: WasProbed(q, j) <==> WasProbed(p, j)
  {}

  /** onError is called for exactly the items a call threw on; `Accounted` adds: once each. */
  lemma {:induction false} ErrorsExactly(items: seq<Item>, limit: int, ms: seq<Move>, i: nat)
    ensures i in Play(items, Start(items, limit), ms).errors
            <==> exists k: nat :: ThrowsOn(items, Start(items, limit), ms, k, i)
    decreases |ms|
  {
    hide Advance, Fits, Play, Start;
    var p := Start(items, limit);
    if ms == [] {
      StartLogs(items, limit);
    } else {
      var n := |ms| - 1;
      ErrorsExactly(items, limit, ms[..n], i);
      LastMove(items, p, ms);
      forall k: nat | k < n ensures ThrowsOn(items, p, ms, k, i) <==> ThrowsOn(items, p, ms[..n], k, i) {
        assert ms[..n][..k] == ms[..k];
      }
      assert ThrowsOn(items, p, ms, n, i) || !ThrowsOn(items, p, ms, n, i);
    }
  }

  lemma {:induction false} StartLogs(items: seq<Item>, limit: int)
    ensures var p := Play(items, Start(items, limit), []);
            && p.errors == [] && p.verdicts == [] && p.refused == [] && p.probed == []
            && forall w: nat :: w < |p.slots| ==> p.slots[w].AtLoop?
  {}

  /** The last move of a schedule, and what it adds. */
  lemma {:induction false} LastMove(items: seq<Item>, p: Pool, ms: seq<Move>)
    requires ms != []
    ensures var n := |ms| - 1;
            var m, q := Play(items, p, ms[..n]), Play(items, p, ms);
            if Possible(items, m, ms[n]) then
              var it, a := ItemOf(m.slots[ms[n].worker]), ms[n].answer;
              var slot := m.slots[ms[n].worker];
              && q == Advance(items, m, ms[n].worker, a)
              && q.errors == m.errors + (if it.Some? && (a.Throws? || a == Committed(true)) then [it.value] else [])
              && q.verdicts == m.verdicts +
                   (if slot.Settling? && a.Committed? then [(slot.item, slot.resolution)] else [])
              && (forall i: nat :: i in q.refused || WasProbed(q, i) <==>
                   || i in m.refused || WasProbed(m, i)
                   || (&& it == Some(i) && slot.ReadingGamma? && a.Gamma?
                       && ToResolution(a.market).Unresolved? && Overdue(items[i], a.now)))
            else q == m
  {
    hide Advance, Fits, WasProbed;
    var n := |ms| - 1;
    var m := Play(items, p, ms[..n]);
    if Possible(items, m, ms[n]) {
      AdvanceLogs(items, m, ms[n].worker, ms[n].answer);
    }
  }

  /** The settlements committed are exactly those some worker was carrying out. */
  lemma {:induction false} VerdictsExactly(items: seq<Item>, limit: int, ms: seq<Move>, i: nat, r: Resolution)
    ensures (i, r) in Play(items, Start(items, limit), ms).verdicts
            <==> exists k: nat :: CommitsOn(items, Start(items, limit), ms, k, i, r)
    decreases |ms|
  {
    hide Advance, Fits, Play, Start;
    var p := Start(items, limit);
    if ms == [] {
      StartLogs(items, limit);
    } else {
      var n := |ms| - 1;
      VerdictsExactly(items, limit, ms[..n], i, r);
      LastMove(items, p, ms);
      forall k: nat | k < n ensures CommitsOn(items, p, ms, k, i, r) <==> CommitsOn(items, p, ms[..n], k, i, r) {
        assert ms[..n][..k] == ms[..k];
      }
      assert CommitsOn(items, p, ms, n, i, r) || !CommitsOn(items, p, ms, n, i, r);
    }
  }

  /** An overdue market that Gamma calls open is probed or refused, and no other market is either. */
  lemma {:induction false} ProbedOrRefusedExactly(items: seq<Item>, limit: int, ms: seq<Move>, i: nat)
    ensures var q := Play(items, Start(items, limit), ms);
            i in q.refused || WasProbed(q, i)
            <==> exists k: nat :: OpenAndOverdue(items, Start(items, limit), ms, k, i)
    decreases |ms|
  {
    hide Advance, Fits, Play, Start, Overdue, ToResolution, NamesNothing, ChainTime;
    var p := Start(items, limit);
    if ms == [] {
      StartLogs(items, limit);
    } else {
      var n := |ms| - 1;
      ProbedOrRefusedExactly(items, limit, ms[..n], i);
      LastMove(items, p, ms);
      forall k: nat | k < n ensures OpenAndOverdue(items, p, ms, k, i) <==> OpenAndOverdue(items, p, ms[..n], k, i) {
        assert ms[..n][..k] == ms[..k];
      }
      if ms[n].answer.Gamma? && i < |items| {
        OpenExactly(ms[n].answer.market);
        OverdueExactly(items[i], ms[n].answer.now);
      }
      assert OpenAndOverdue(items, p, ms, n, i) || !OpenAndOverdue(items, p, ms, n, i);
    }
  }

  /** No market is settled to anything but what Gamma or the chain answered about that market. */
  lemma {:induction false} SettledAsReported(items: seq<Item>, limit: int, ms: seq<Move>, w: nat)
    ensures var q := Play(items, Start(items, limit), ms);
            w < |q.slots| && q.slots[w].Settling? ==>
              && !q.slots[w].resolution.Unresolved?
              && exists k: nat :: ReportsOn(items, Start(items, limit), ms, k, q.slots[w].item, q.slots[w].resolution)
    decreases |ms|
  {
    hide Advance, Fits, Play, Start, Overdue, ToResolution, ChainToResolution;
    var p := Start(items, limit);
    var q := Play(items, p, ms);
    if ms == [] {
      StartLogs(items, limit);
    } else {
      var n := |ms| - 1;
      var m := Play(items, p, ms[..n]);
      LastMove(items, p, ms);
      if Possible(items, m, ms[n]) {
        SettlingFrom(items, m, ms[n].worker, ms[n].answer);
      }
      if w < |q.slots| && q.slots[w].Settling? {
        var i, r := q.slots[w].item, q.slots[w].resolution;
        if Possible(items, m, ms[n]) && ms[n].worker == w {
          assert ReportsOn(items, p, ms, n, i, r);
        } else {
          SettledAsReported(items, limit, ms[..n], w);
          var k: nat :| ReportsOn(items, p, ms[..n], k, i, r);
          assert ms[..n][..k] == ms[..k];
          assert ReportsOn(items, p, ms, k, i, r);
        }
      }
    }
  }

  /** A worker goes on to settle only with what the answer to its own call said. */
  lemma {:induction false} SettlingFrom(items: seq<Item>, p: Pool, w: nat, a: Answer)
    requires Possible(items, p, Move(w, a))
    ensures var q := Advance(items, p, w, a);
            && |q.slots| == |p.slots|
            && (forall v: nat :: v < |p.slots| && v != w ==> q.slots[v] == p.slots[v])
            && (q.slots[w].Settling? ==>
                  && !q.slots[w].resolution.Unresolved?
                  && ItemOf(p.slots[w]) == Some(q.slots[w].item)
                  && match a
                     case Gamma(g, _) => ToResolution(g) == q.slots[w].resolution
                     case Chain(o) => ChainToResolution(o) == q.slots[w].resolution
                     case _ => false)
  {
    hide Overdue, ToResolution, ChainToResolution, Readers;
  }

  /** So a committed verdict was reported about that market, in this sweep, before its commit. */
  lemma {:induction false} VerdictsReported(items: seq<Item>, limit: int, ms: seq<Move>, i: nat, r: Resolution)
    requires (i, r) in Play(items, Start(items, limit), ms).verdicts
    ensures !r.Unresolved?
    ensures exists j: nat, k: nat ::
              && j < k && ReportsOn(items, Start(items, limit), ms, j, i, r)
              && CommitsOn(items, Start(items, limit), ms, k, i, r)
  {
    hide Possible, Play, Start, ToResolution, ChainToResolution;
    var p := Start(items, limit);
    VerdictsExactly(items, limit, ms, i, r);
    var k: nat :| CommitsOn(items, p, ms, k, i, r);
    CommitSlot(items, p, ms, k, i, r);
    SettledAsReported(items, limit, ms[..k], ms[k].worker);
    var j: nat :| ReportsOn(items, p, ms[..k], j, i, r);
    assert ms[..k][..j] == ms[..j];
    assert ReportsOn(items, p, ms, j, i, r);
  }

  lemma {:induction false} CommitSlot(items: seq<Item>, p: Pool, ms: seq<Move>, k: nat, i: nat, r: Resolution)
    requires CommitsOn(items, p, ms, k, i, r)
    ensures k < |ms| && ms[k].worker < |Play(items, p, ms[..k]).slots|
    ensures Play(items, p, ms[..k]).slots[ms[k].worker] == Settling(i, r)
  {}

  /** Move k is Gamma or the chain naming outcome o for item i. */
  predicate Names(items: seq<Item>, p: Pool, ms: seq<Move>, k: nat, i: nat, o: MarketOutcome) {
    && Reaches(items, p, ms, k, i)
    && match ms[k].answer
       case Gamma(Some(g), _) => g.status.RESOLVED? && g.outcome == Some(o)
       case Chain(c) => c == Some(o)
       case _ => false
  }

  /** The outcome that lands in an undecided market's row is the one Gamma or the chain named for it. */
  lemma {:induction false} OutcomeAsNamed(
      items: seq<Item>, limit: int, ms: seq<Move>, i: nat, r: Resolution, market: Market, now: int)
    requires (i, r) in Play(items, Start(items, limit), ms).verdicts && !Decided(market)
    ensures exists k: nat, o: MarketOutcome ::
              && Names(items, Start(items, limit), ms, k, i, o)
              && CloseMarket(market, r, now).outcome == Some(o)
              && CloseMarket(market, r, now).resolvedAt == Some(now)
              && CloseMarket(market, r, now).status == if o.OutcomeInvalid? then CANCELED else RESOLVED
  {
    hide Possible, Play, Start;
    var p := Start(items, limit);
    VerdictsReported(items, limit, ms, i, r);
    var j: nat, k: nat :| j < k && ReportsOn(items, p, ms, j, i, r) && CommitsOn(items, p, ms, k, i, r);
    var o := if r.Voided? then OutcomeInvalid else if r.yes then OutcomeYes else OutcomeNo;
    assert Names(items, p, ms, j, i, o);
  }

  /** The resolution an outcome is settled with. */
  function ResolutionFor(o: MarketOutcome): Resolution {
    if o.OutcomeInvalid? then Voided else Resolved(o.OutcomeYes?)
  }

  /** The worker that hears an outcome goes on to settle it. */
  lemma {:induction false} NamingSettles(items: seq<Item>, p: Pool, ms: seq<Move>, k: nat, i: nat, o: MarketOutcome)
    requires Names(items, p, ms, k, i, o) && (ms[k].answer.Gamma? ==> !o.OutcomeInvalid?)
    ensures var q := Play(items, p, ms[..k + 1]);
            ms[k].worker < |q.slots| && q.slots[ms[k].worker] == Settling(i, ResolutionFor(o))
  {
    hide Play, Overdue, Readers;
    assert ms[..k + 1] == ms[..k] + [ms[k]];
    PlayOneMore(items, p, ms[..k], ms[k]);
  }

  /** Worker w is about to commit, or has, or was thrown out at a move after k. */
  ghost predicate OnItsWay(items: seq<Item>, p: Pool, ms: seq<Move>, k: nat, n: nat, w: nat, i: nat, r: Resolution)
    requires n <= |ms|
  {
    var m := Play(items, p, ms[..n]);
    || (w < |m.slots| && m.slots[w] == Settling(i, r))
    || (i, r) in m.verdicts
    || exists l: nat :: k < l && ThrowsOn(items, p, ms, l, i)
  }

  lemma {:induction false} SettlingGoesOn(
      items: seq<Item>, p: Pool, ms: seq<Move>, k: nat, n: nat, w: nat, i: nat, r: Resolution)
    requires k < n < |ms| && OnItsWay(items, p, ms, k, n, w, i, r)
    ensures OnItsWay(items, p, ms, k, n + 1, w, i, r)
  {
    hide Play, Advance, Overdue, ToResolution, ChainToResolution;
    var m, q := Play(items, p, ms[..n]), Play(items, p, ms[..n + 1]);
    assert ms[..n + 1][..n] == ms[..n];
    assert ms[..n + 1][n] == ms[n];
    LastMove(items, p, ms[..n + 1]);
    if Possible(items, m, ms[n]) {
      SettlingFrom(items, m, ms[n].worker, ms[n].answer);
      assert ms[n].answer.Throws? && ms[n].worker == w && ItemOf(m.slots[w]) == Some(i) ==>
          ThrowsOn(items, p, ms, n, i);
    }
  }

  /**
   * What Gamma or the chain says is acted on: once all workers are done, a market whose outcome either
   * of them named has been settled to that outcome, unless a later call on it threw.
   */
  lemma {:induction false} NamedIsSettled(
      items: seq<Item>, limit: int, ms: seq<Move>, k: nat, i: nat, o: MarketOutcome)
    requires Names(items, Start(items, limit), ms, k, i, o) && (ms[k].answer.Gamma? ==> !o.OutcomeInvalid?)
    requires AllExited(Play(items, Start(items, limit), ms))
    ensures || (i, ResolutionFor(o)) in Play(items, Start(items, limit), ms).verdicts
            || exists l: nat :: k < l && ThrowsOn(items, Start(items, limit), ms, l, i)
  {
    hide Play, Start, Names, Advance;
    var p, r := Start(items, limit), ResolutionFor(o);
    assert k < |ms| by {
      MoveExists(items, p, ms, k, i, o);
    }
    NamingSettles(items, p, ms, k, i, o);
    var n := k + 1;
    while n < |ms|
      invariant k < n <= |ms|
      invariant OnItsWay(items, p, ms, k, n, ms[k].worker, i, r)
    {
      SettlingGoesOn(items, p, ms, k, n, ms[k].worker, i, r);
      n := n + 1;
    }
    assert ms[..n] == ms;
  }

  lemma {:induction false} MoveExists(items: seq<Item>, p: Pool, ms: seq<Move>, k: nat, i: nat, o: MarketOutcome)
    requires Names(items, p, ms, k, i, o)
    ensures k < |ms|
  {}

  // ---------------------------------------------------------------- an older market passed over

  /** A time by which every item is overdue. */
  function LateTime(items: seq<Item>): (t: int)
    ensures forall i :: 0 <= i < |items| && items[i].source.POLYMARKET? ==> Overdue(items[i], t)
  {
    if items == [] then 0
    else
      var n := |items| - 1;
      var t, u := LateTime(items[..n]), items[n].deadline + SPORT_CHAIN_GRACE_MS;
      assert forall i :: 0 <= i < n ==> items[..n][i] == items[i];
      if t > u then t else u
  }

  /** Nobody holds anything, and no item before k is left to shift. */
  ghost predicate Fresh(items: seq<Item>, p: Pool, k: nat) {
    && k <= |items| && |p.slots| >= 2 && p.slots[0].AtLoop? && p.slots[1].AtLoop?
    && p.queue == Indices(|items|)[k..] && p.probesLeft == CHAIN_PROBES_PER_TICK
    && p.probed == [] && p.refused == []
  }

  /** The first worker still waits for Gamma about item f; the second is through with everything before k. */
  ghost predicate Stalled(items: seq<Item>, p: Pool, f: nat, k: nat) {
    && f < k <= |items| && |p.slots| >= 2 && p.slots[0] == ReadingGamma(f) && p.slots[1].AtLoop?
    && p.queue == Indices(|items|)[k..] && |p.probed| + p.probesLeft == CHAIN_PROBES_PER_TICK
    && p.refused == [] && forall j :: 0 <= j < |p.probed| ==> f < p.probed[j].0
  }

  lemma {:induction false} QueueFrom(n: nat, k: nat)
    requires k < n
    ensures Indices(n)[k..] != [] && Indices(n)[k..][0] == k && Indices(n)[k..][1..] == Indices(n)[k + 1..]
  {}

  /** A worker shifts item k and its Gamma read throws. */
  lemma {:induction false} ThrowRound(items: seq<Item>, p: Pool, ms: seq<Move>, w: nat, k: nat)
    returns (more: seq<Move>)
    requires var m := Play(items, p, ms);
             w < |m.slots| && m.slots[w].AtLoop? && k < |items| && m.queue == Indices(|items|)[k..]
    ensures var m, q := Play(items, p, ms), Play(items, p, more);
            && q.slots == m.slots && q.queue == Indices(|items|)[k + 1..]
            && q.probed == m.probed && q.probesLeft == m.probesLeft && q.refused == m.refused
  {
    hide Play, Readers, Indices;
    QueueFrom(|items|, k);
    var take, throw := Move(w, Throws), Move(w, Throws);
    PlayOneMore(items, p, ms, take);
    var m1 := Play(items, p, ms + [take]);
    assert m1.slots[w] == ReadingGamma(k);
    PlayOneMore(items, p, ms + [take], throw);
    more := ms + [take] + [throw];
    assert Play(items, p, more).slots == Play(items, p, ms).slots;
  }

  /** The second worker shifts item k; Gamma says open, a probe is granted, and the chain says open. */
  lemma {:induction false} ProbeRound(items: seq<Item>, p: Pool, ms: seq<Move>, f: nat, k: nat)
    returns (more: seq<Move>)
    requires Stalled(items, Play(items, p, ms), f, k) && k < |items| && items[k].source.POLYMARKET?
    requires Play(items, p, ms).probesLeft > 0
    ensures Stalled(items, Play(items, p, more), f, k + 1)
    ensures Play(items, p, more).probesLeft == Play(items, p, ms).probesLeft - 1
  {
    hide Play, Readers, Indices, Overdue;
    QueueFrom(|items|, k);
    var now := LateTime(items);
    var take, open, closed := Move(1, Throws), Move(1, Gamma(None, now)), Move(1, Chain(None));
    PlayOneMore(items, p, ms, take);
    assert Play(items, p, ms + [take]).slots[1] == ReadingGamma(k);
    PlayOneMore(items, p, ms + [take], open);
    assert Play(items, p, ms + [take] + [open]).slots[1] == Probing(k);
    PlayOneMore(items, p, ms + [take] + [open], closed);
    more := ms + [take] + [open] + [closed];
  }

  /** The second worker goes on until the probes are spent. */
  lemma {:induction false} SpendProbes(items: seq<Item>, p: Pool, ms: seq<Move>, f: nat, k: nat)
    returns (more: seq<Move>, l: nat)
    requires Stalled(items, Play(items, p, ms), f, k)
    requires |PolymarketFrom(items, k)| >= Play(items, p, ms).probesLeft
    ensures Stalled(items, Play(items, p, more), f, l) && Play(items, p, more).probesLeft == 0
    decreases |items| - k
  {
    hide Play;
    if Play(items, p, ms).probesLeft == 0 {
      return ms, k;
    }
    PolymarketFew(items, k);
    PolymarketStep(items, k);
    if items[k].source.POLYMARKET? {
      more := ProbeRound(items, p, ms, f, k);
    } else {
      more := ThrowRound(items, p, ms, 1, k);
    }
    more, l := SpendProbes(items, p, more, f, k + 1);
  }

  /** The first worker gets to the first Polymarket item and stops there. */
  lemma {:induction false} HoldOldest(items: seq<Item>, p: Pool, ms: seq<Move>, k: nat)
    returns (more: seq<Move>, f: nat)
    requires Fresh(items, Play(items, p, ms), k) && |PolymarketFrom(items, k)| > CHAIN_PROBES_PER_TICK
    ensures k <= f < |items| && items[f].source.POLYMARKET?
    ensures forall i :: k <= i < f ==> !items[i].source.POLYMARKET?
    ensures Stalled(items, Play(items, p, more), f, f + 1)
    ensures Play(items, p, more).probesLeft == CHAIN_PROBES_PER_TICK <= |PolymarketFrom(items, f + 1)|
    decreases |items| - k
  {
    hide Play, Readers, Indices;
    PolymarketFew(items, k);
    PolymarketStep(items, k);
    if items[k].source.POLYMARKET? {
      f := k;
      QueueFrom(|items|, k);
      PlayOneMore(items, p, ms, Move(0, Throws));
      more := ms + [Move(0, Throws)];
    } else {
      more := ThrowRound(items, p, ms, 0, k);
      more, f := HoldOldest(items, p, more, k + 1);
    }
  }

  /**
   * With two workers or more the oldest market that could be probed can be refused, while all 25
   * probes go to younger ones: its Gamma read is slow, and grants follow the answers, not the queue.
   */
  lemma {:induction false} OldestCanBeRefused(items: seq<Item>, limit: int) returns (ms: seq<Move>, f: nat)
    requires limit >= 2 && |PolymarketFrom(items, 0)| > CHAIN_PROBES_PER_TICK
    ensures f in PolymarketFrom(items, 0) && forall i :: i in PolymarketFrom(items, 0) ==> f <= i
    ensures var q := Play(items, Start(items, limit), ms);
            && f in q.refused && |q.probed| == CHAIN_PROBES_PER_TICK
            && forall j :: 0 <= j < |q.probed| ==> f < q.probed[j].0
  {
    hide Play, Readers, PolymarketFrom;
    var p := Start(items, limit);
    NoMovesYet(items, p);
    PolymarketFew(items, 0);
    assert Indices(|items|)[0..] == Indices(|items|);
    ms, f := HoldOldest(items, p, [], 0);
    var k: nat;
    ms, k := SpendProbes(items, p, ms, f, f + 1);
    var last := Move(0, Gamma(None, LateTime(items)));
    PlayOneMore(items, p, ms, last);
    ms := ms + [last];
    PolymarketMembers(items, f);
  }

  lemma {:induction false} PolymarketMembers(items: seq<Item>, f: nat)
    requires f < |items| && items[f].source.POLYMARKET?
    requires forall i :: 0 <= i < f ==> !items[i].source.POLYMARKET?
    ensures f in PolymarketFrom(items, 0) && forall i :: i in PolymarketFrom(items, 0) ==> f <= i
  {}

  lemma {:induction false} PolymarketFew(items: seq<Item>, k: nat)
    requires k <= |items|
    ensures |PolymarketFrom(items, k)| <= |items| - k
    decreases |items| - k
  {
    if k < |items| {
      PolymarketFew(items, k + 1);
      PolymarketStep(items, k);
    } else {
      assert PolymarketFrom(items, k) == {};
    }
  }

  /**
   * When the oldest markets do get the probes first: on every schedule, exactly if there is a single
   * worker or no more than 25 Polymarket items, which the caller can see before it starts.
   */
  lemma {:induction false} OldestFirstIff(items: seq<Item>, limit: int)
    ensures (forall ms: seq<Move> :: Overtaken(Play(items, Start(items, limit), ms)) == {})
            <==> limit < 2 || |PolymarketFrom(items, 0)| <= 25
  {
    hide Play, PolymarketFrom, Valid;
    if limit >= 2 && |PolymarketFrom(items, 0)| > CHAIN_PROBES_PER_TICK {
      var ms, f := OldestCanBeRefused(items, limit);
      var q := Play(items, Start(items, limit), ms);
      assert q.probed[0].0 > f;
      assert f in Overtaken(q);
    } else {
      forall ms: seq<Move> ensures Overtaken(Play(items, Start(items, limit), ms)) == {} {
        NoneOvertaken(items, limit, ms);
      }
    }
  }

  lemma {:induction false} NoneOvertaken(items: seq<Item>, limit: int, ms: seq<Move>)
    requires limit < 2 || |PolymarketFrom(items, 0)| <= CHAIN_PROBES_PER_TICK
    ensures Overtaken(Play(items, Start(items, limit), ms)) == {}
  {
    hide Play, PolymarketFrom, Accounted, Budgeted, Overtaken;
    var p := Play(items, Start(items, limit), ms);
    StartValid(items, limit);
    ReachableValid(items, Start(items, limit), ms);
    if Overtaken(p) != {} {
      OvertakenNeedsMany(items, p);
      FewOvertaken(p);
    }
  }
}
