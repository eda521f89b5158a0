# Settlement, market cache and template runtime: a verified model

A Dafny model of two parts of the swipe-betting application, with proofs about them:

- **the money and the market cache**: `scripts/settle.ts`, `scripts/poller.ts`, `scripts/prune-markets.ts`,
  `scripts/refresh-deck.ts`, `scripts/refresh-hedge-index.ts` and `scripts/refresh-stocks.ts`, together with the
  steps of `src/lib` that write the same tables (swipes, top-ups, hedge accepts, stock lots, real fills);
- **the template expression language** of `app design/support.js`: reading an expression, taking attribute templates
  apart, hiding camel-case attribute names from the HTML parser, and the guard against circular imports.

Everything is checked by `dafny verify dfyconfig.toml` (Dafny 4.11).

## How it is modelled

**Tables and steps.** `Tables.Db` holds the rows; `Runs.Step` lists every committed statement or transaction that
writes them, and `Runs.Apply` is its effect. A transaction whose guard fails rolls back, so it is a step that changes
nothing. A *run* is any sequence of steps: any interleaving of users, the sweep, both refreshers and the collector.
The money invariants (`Cash`), the life of a market row (`Lifecycle`) and the foreign and unique keys (`Runs`) are
proved of every run. Code that works by updating rows is a method on `Store.Database` whose statements are those
steps, and between two statements of a collection other clients may commit any steps at all (`Prune`).

**The sweep.** `Sweep.Pool` is the state that the workers of `mapLimit` share. A schedule says which worker moves next
and what its awaited call answers (a verdict, nothing, an exception); `Sweep.Play` runs it. Results about `Play` hold
of every schedule, and `Sweep.MapLimit` is the loop itself, its answers left open. `Tick` puts such a sweep back among
the other clients' steps.

**The expression language.** `Expr` follows `resolve` case by case, over an arbitrary `Host` that supplies what belongs
to JavaScript: constants, property reads, truthiness, the two equalities. The scanning loops are methods proved against
bracket depth. `Syntax` has expressions as trees with their own evaluator, over the words that `Grammar` spells out
letter by letter, and trees carry their layout, so the round trip covers every spelling.

**Statements apart from the code.** Where a step or a test is a function here, a lemma whose name ends in `Exactly` or
`Effect` says what it does without naming it: in plain columns, thresholds and letters.

**Where the code and what is said about it part.** The model follows the code.

- `prisma/schema.prisma:466` calls `lockedCents` the sum of stakes on pending bets. `src/lib/stocks-db.ts:83-114` adds
  paper stock lots to it: `Cash.HoldIsStakesIff` says exactly when the comment holds.
- `src/lib/swipe.ts:59-134` does not look at the market's status inside its transaction (the hedge accept does,
  `src/lib/hedge/accept.ts:133-143`). A swipe that commits after its market was settled leaves a bet pending that no
  later sweep selects: `Lifecycle.StrandedIffLate` says when, `Lifecycle.LateSwipeWindow` and `.LateSwipeHappens` how.
- `scripts/prune-markets.ts:59-68` re-asserts in the delete that nothing refers to the rows, but not that they are
  still expired: `Lifecycle.PostponedMarketDeleted` is an instance, `Prune.DeleteTakesExpired` the exact condition.
- `scripts/poller.ts:46-49` and `:209-212` say the oldest markets get the chain probes first. Grants follow the order of
  Gamma's answers: `Sweep.OldestFirstIff` says for which sweeps the comment holds, `Sweep.OvertakenFew` what always does.
- `scripts/refresh-hedge-index.ts:359-362` promises that a run in which no depth read succeeded demotes nothing. One
  fetched market without a mid price makes it demote all the same: `S2Pass.NoDepthIff`, `S2Pass.NoDepthYetDemoted`.
- `app design/support.js:235-260` scans for brackets and operators inside quoted texts too: `Syntax.QuotedTextIff`,
  `Syntax.QuotedOperandIff` and `Syntax.QuotedRightIff` say exactly which texts survive that, alone and on either side of
  a comparison.
- `app design/support.js:370-381` takes a template that begins blank and ends on a closing for one expression, so
  `{{a}} {{b}}` resolves to nothing: `Attr.SegmentsRecovered`, `Attr.TwoHolesMisread`.
- `app design/support.js:405-409` rewrites every prop of a plain element that starts with "on":
  `AttrNames.PropKeyOfEncoded`, `AttrNames.NamesStayApart`.
- `scripts/settle.ts:152-157` seeds a missing balance row; settlement order would then show
  (`Ledger.MissingRowNotConfluent`), but no run gets there (`Cash.SafetyNetNeverFires`).
- `scripts/prune-markets.ts:14-17` expects a foreign key that refuses the delete of a market with hedge events. Since
  `prisma/migrations/20260914165300_stocks/migration.sql:163` it would set the reference to null; the anti-join of the
  delete is what keeps those rows whole.

## Model

| member | source | states |
|---|---|---|
| Syntax.RoundTrip | app design/support.js:200-292 | for every expression tree over names, decimals and quote marks spelled out letter by letter, quoted texts with balanced brackets included, every spelling of it (blanks, redundant parentheses) and every host, `resolve` on the text gives the value of the tree |
| Grammar.LongestName | app design/support.js:201-202 | the identifier match takes the longest name the text begins with, letters of both cases, `_`, `$` and digits |
| Grammar.NumberExactly | app design/support.js:202 | the number test takes an optional sign, digits, an optional point and digits, and nothing else |
| Grammar.QuotedExactly | app design/support.js:230-232 | a text is taken for quoted exactly when the same quote mark stands at both ends |
| Grammar.TrimExactly | app design/support.js:204 | trimming takes off exactly the blanks at either end |
| Grammar.SplitExactly | app design/support.js:246-260 | a comparison starts at an `=` or `!` followed by `=` and preceded by neither, where as many brackets are closed as opened and something but blanks is to the left |
| Grammar.WrapsExactly | app design/support.js:235-245 | outer parentheses wrap the whole when no earlier closing one brings openings and closings level |
| Syntax.StrayText | app design/support.js:261-292 | a name followed by anything but a proper step, an unclosed bracket included, is undefined in every host |
| Syntax.GapIsUndefined | app design/support.js:204-205 | a blank text is undefined |
| Syntax.Unambiguous | app design/support.js:203-292 | two trees written the same mean the same in every host |
| Syntax.CmpReads | app design/support.js:246-260 | in the text of a comparison the scanner finds that comparison and its whole operator, and never takes the operands' parentheses for outer ones |
| Syntax.Shape | app design/support.js:235-260 | the text of any expression is bracket-balanced and trimmed, and shows no operator at depth zero unless it is a comparison |
| Syntax.CloseIndexOf | app design/support.js:273-283 | over balanced text the bracket matcher stops at the bracket that closes it |
| Syntax.WalkFollows | app design/support.js:261-292 | walking the text of path steps reads exactly those properties, computed keys included |
| Syntax.QuotedTextIff | app design/support.js:209-232 | on its own a quoted text reads as itself if and only if no operator in it stands at bracket depth zero |
| Syntax.QuotedOperandIff | app design/support.js:209-260 | a comparison with a quoted text on its left is read as that comparison in every host if and only if the brackets in the text cancel out and no operator in it is at depth zero |
| Syntax.QuotedRightIff | app design/support.js:209-260 | with the quoted text on the right: if and only if no operator in it is at depth zero, brackets do not matter |
| Syntax.QuotedOperandSplit | app design/support.js:246-260 | under that condition, and no other, the scanner stops at the operator behind the text |
| Syntax.QuotedBracketMisread | app design/support.js:246-260 | an instance: `'(' === 1` is undefined in every host |
| Expr.ParensWrapWhole | app design/support.js:235-245 | true exactly when no closing parenthesis before the last character brings the depth to zero |
| Expr.FindTopLevelEquality | app design/support.js:246-260 | the leftmost operator at bracket depth zero with something to its left; none exactly when there is none |
| Expr.MatchBracket | app design/support.js:273-283 | the first position where the square depth from the bracket at i is back to zero; none exactly when it stays positive to the end |
| Expr.ResolvePath | app design/support.js:261-292 | the loop computes the path value, every failure ending in undefined |
| Expr.ReadText | app design/support.js:203-234 | the branches with their scanning loops compute `Read`; recursion is on strictly shorter text |
| Expr.ResolveText | app design/support.js:203-234 | `resolve` ends on every string and computes `Resolve` |
| Attr.SplitWeave | app design/support.js:377 | splitting a woven template gives back its literals and holes in order |
| Attr.WholeMatchIff | app design/support.js:371 | the whole-value pattern takes a template exactly when it starts blank and ends on a closing |
| Attr.SegmentsRecovered | app design/support.js:370-381 | the written segments come back if and only if the template does not both start blank and end on a closing |
| Attr.BlankEndsClosed | app design/support.js:371 | for a last literal without a closing brace, ending on a closing means being blank |
| Attr.BlankEndsReadAsOne | app design/support.js:370-375 | a template blank at both ends reads as one expression, from first opening to last closing; with one hole, that hole |
| Attr.TemplateRenders | app design/support.js:376-379 | outside that case the rendered text is the literals with each expression's value between them, nullish ones empty, whatever blanks the holes are padded with |
| Attr.OneHolePassesValue | app design/support.js:370-375 | an attribute that is one hole, however padded, passes its expression's own value on |
| Attr.EmptyHoleIsText | app design/support.js:371-378 | an opening right before a closing is no hole |
| Attr.PlainIff | app design/support.js:376-380 | text is passed on as it is if and only if it has no opening |
| Attr.UnclosedIsText | app design/support.js:376-379 | an opening that nothing closes is rendered as it was written |
| Attr.TwoHolesMisread | app design/support.js:370-375 | `{{a}} {{b}}` is read as one expression that is undefined in every host |
| Attr.ClosingLiteralMisread | app design/support.js:371-374 | `{{a}}}` is read as the expression `a}` |
| AttrNames.NameRoundTrip | app design/support.js:347-359 | decoding undoes encoding exactly for names with no dash before a lower-case letter |
| AttrNames.KebabHasNoCapitals | app design/support.js:345-348 | an encoded name has nothing for the HTML parser to lower-case |
| AttrNames.CamelNameRoundTrip | app design/support.js:337-359 | every name the encoder touches is decoded to itself |
| AttrNames.PropKeyOfEncoded | app design/support.js:390-410 | the prop arrives under its own name, except exactly "on" plus lower-case names on plain elements |
| AttrNames.NamesStayApart | app design/support.js:390-410 | two names share a prop if and only if, on a plain element, both start with "on" and differ only in the case of the third letter |
| AttrNames.OnNamesCollide | app design/support.js:407-408 | `onlyOnce` and `onLyOnce` land on one prop of a plain element |
| AttrNames.HandlerKey | app design/support.js:315-331 | a handler's prop is its attribute but for case, with a capital behind "on" |
| AttrNames.ComponentKebab | app design/support.js:401-404 | a component's prop written in kebab case arrives in camel case |
| Render.RenderIsHonest | app design/support.js:939-1004 | below a duplicate-free chain every chain is duplicate-free; a placeholder shows the cycle its chain closes, only a component without a template is pending, any other is mounted with its imports below it in order |
| Render.CycleTextIsCycle | app design/support.js:941-944 | the names listed in the placeholder are a walk of imports that returns to its start and repeats nothing else |
| Render.HeightBound | app design/support.js:939-1004 | rendering ends, no deeper than the number of templates not yet on the chain, plus one |
| Render.PlaceholderIffCycle | app design/support.js:939-1004 | the circular placeholder is shown exactly when imports from the root run in a circle |
| Pnl.RoundUnique | scripts/settle.ts:49 | rounding half up is the only integer within half a unit, halves upward |
| Pnl.FairOdds | scripts/settle.ts:46-51 | on a win, price times payout is within half the price of 10000 times the stake |
| Pnl.FairBet | scripts/settle.ts:12-19 | either side, bought at its own probability, has an expected profit within half a cent of zero |
| Pnl.PnlOfPayout | scripts/settle.ts:44-51 | profit is payout less stake on both branches; a win never loses money |
| Pnl.PayoutMonotone | scripts/settle.ts:38-51 | payout grows with the stake and falls with the price |
| Settlement.SettleMarket | scripts/settle.ts:64-173 | the transaction, taking the bets in any order, leaves exactly `Ledger.Settle`; settled plus voided is the number of pending paper bets, all in the column of the verdict |
| Settlement.PayAll | scripts/settle.ts:103-167 | the loop over the bets computes the settled books whatever the order |
| Ledger.SettleIdempotent | scripts/settle.ts:58-59 | settling again, with any verdict, changes no row of any table |
| Ledger.NothingLeftDue | scripts/settle.ts:75-77 | afterwards no bet of the market is due, and those of other markets are as before |
| Ledger.SettleCommutes | scripts/settle.ts:64-173 | settling two markets in either order gives the same bets and balances |
| Ledger.SettleAllAnyOrder | scripts/settle.ts:64-173 | so does any permutation of verdicts on distinct markets |
| Ledger.MissingRowNotConfluent | scripts/settle.ts:152-157 | without a balance row two orders give different balances |
| Runs.StepKeepsConstraints | prisma/schema.prisma:409-416 | every foreign and unique key holds after every step |
| Runs.PruneConstraints | scripts/prune-markets.ts:59-68 | the delete leaves no bet, event or order attempt without its market |
| Runs.SwipeEffect | src/lib/swipe.ts:99-126 | a swipe adds one pending ten-dollar bet on the side and at the price given and holds its stake, or, exactly when it may not, changes nothing |
| Runs.AcceptEffect | src/lib/hedge/accept.ts:132-187 | the same for a hedge: exactly when it is accepted, at the smaller of quote and free cash |
| Cash.StepMoves | scripts/settle.ts:5-23 | each step moves balance, hold, stakes and profit of each user together |
| Cash.SettleMoves | scripts/settle.ts:103-158 | settlement releases exactly the settled stake and adds exactly its profit |
| Cash.CashOverRuns | scripts/settle.ts:5-23 | over every run the hold is what is pending or open, cash is never negative, and balance less earnings moves only by credits |
| Cash.CashFromScratch | scripts/settle.ts:21-23 | from an empty database, `0 <= locked <= balance` and balance is credits plus earnings, for every user and run |
| Cash.HoldIsStakesIff | prisma/schema.prisma:462-467 | the hold equals the pending stakes if and only if the user has no open stock lot |
| Cash.SafetyNetNeverFires | scripts/settle.ts:152-157 | in a reachable state settlement never creates a balance row |
| Lifecycle.OnlyUnreferencedRowsGo | scripts/prune-markets.ts:59-68 | a market row disappears only by the delete, with nothing referring to it at that statement |
| Lifecycle.TerminalForGood | scripts/settle.ts:79-97 | a decided market that anything refers to keeps row, status, outcome and time through every run |
| Lifecycle.TerminalLostIff | scripts/prune-markets.ts:50-68 | some run loses a decided market if and only if nothing refers to it |
| Lifecycle.StrandedIffLate | src/lib/swipe.ts:59-134 | no paper bet is ever pending on a decided market if and only if no swipe commits on a decided market |
| Lifecycle.LateSwipeStrands | src/lib/swipe.ts:99-126 | one such swipe strands its bet |
| Lifecycle.LateSwipeWindow | src/app/api/swipe/route.ts:36-47 | in any state where a user may bet: settled between the route's check and the swipe's commit, the new bet is stranded through every later run of sweeps |
| Lifecycle.LateSwipeHappens | src/app/api/swipe/route.ts:36-47 | a run from an empty database into that window, with another user's bet keeping the market in the sweep's scan |
| Lifecycle.StrandedForGood | scripts/poller.ts:465-474 | a stranded bet stays unsettled, row unchanged, under every run that settles only markets not yet decided |
| Lifecycle.AgreementOverRuns | scripts/settle.ts:79-146 | without late swipes every settled bet agrees with its market's outcome and its own side, and is paid at its own locked price, in every run |
| Lifecycle.SettledAtItsPrice | scripts/settle.ts:129-146 | settling a bet pays a win by the price that bet was locked at, costs a loss its stake, and changes neither side, stake nor price |
| Lifecycle.BetMarketsStay | scripts/settle.ts:136-146 | no step changes who bet what on which side at what stake and price |
| Lifecycle.AgreementBySweeps | scripts/settle.ts:79-146 | with late swipes too, as long as only undecided markets are settled |
| Tick.TickIsSwept | scripts/poller.ts:465-492 | a tick settles only markets undecided at that commit, under any schedule, any answers, and any steps of others in between |
| Tick.TickKeepsBets | scripts/poller.ts:465-492 | so over a tick agreement is kept, and stranded bets stay as they are |
| Lifecycle.PostponedMarketDeleted | scripts/prune-markets.ts:50-68 | a row selected while expired and then postponed is deleted |
| Prune.PruneMarkets | scripts/prune-markets.ts:45-72 | the select returns only expired markets that no bet, event or attempt names, and all of them when it is not full; under any interleaving the statements are the chunks of those, the count is the rows gone at each delete, and it throws exactly when a delete is refused |
| Prune.GoneExactly | scripts/prune-markets.ts:66-69 | with a chunk go exactly its rows that nothing names at that very statement |
| Prune.DeleteChunk | scripts/prune-markets.ts:57-68 | one chunk takes the rows unreferenced at its own delete, and is refused exactly by a meta written in between |
| Prune.QuietTrace | scripts/prune-markets.ts:50-71 | with nobody else writing, exactly the selected rows go, all are counted, and nothing is refused |
| Prune.Drain | scripts/prune-markets.ts:76-84 | on a quiet table the loop ends with a market gone if and only if it was expired and no bet, event or attempt named it, meta or not, everything else as it was, and returns their number |
| Prune.StillExpired | scripts/prune-markets.ts:50-68 | a selected row still there at its delete is still expired if and only if the last refresh of that very market, if any, did not postpone it |
| Prune.PostponedMeans | scripts/refresh-deck.ts:67-88 | postponed: some refresh of the market gave it a deadline past the cutoff, and none came after |
| Prune.DeleteTakesExpired | scripts/prune-markets.ts:50-68 | a delete takes only expired rows if and only if it is refused, or no row it still finds unreferenced was postponed, whatever else ran in between |
| Prune.CollectionTakesExpired | scripts/prune-markets.ts:45-72 | the same for each delete of a whole collection, on the steps issued by then |
| Prune.GoneStaysGone | scripts/prune-markets.ts:64-68 | a deleted row never comes back under its id |
| HedgeIndex.FlushWrites | scripts/refresh-hedge-index.ts:146-170 | what persists is the sequential writes up to the last whole chunk before a failure; on success ids match the input in order; progress counts the chunks |
| HedgeIndex.WriteOneRow | scripts/refresh-hedge-index.ts:97-161 | after one write the row is found under its key with the new book and dates, open if it is new and otherwise unchanged, and with its meta; every other row is as before |
| HedgeIndex.WriteOneIsSteps | scripts/refresh-hedge-index.ts:153-161 | the writes of a transaction are the same steps that runs are made of |
| HedgeIndex.AffirmedNotRejected | scripts/refresh-hedge-index.ts:288-331 | nothing is both affirmed and rejected; both have their two prices in band, and only what is affirmed is tradable |
| HedgeIndex.VerdictsExactly | scripts/refresh-hedge-index.ts:290-310 | on the depths themselves: affirmed or rejected is what has both mids, a depth and both prices within 200..9800, executable price first, by whether it is tradable; unread is what has both mids and no depth |
| S2Pass.Classify | scripts/refresh-hedge-index.ts:280-331 | the loop's three lists are the affirmed, rejected and unevaluated markets, and `depthSpoke` means some row was evaluated |
| S2Pass.AfterWrites | scripts/refresh-hedge-index.ts:333 | the flushed writes make their markets eligible, with the depth just read, and change no other eligibility |
| S2Pass.AfterDemote | scripts/refresh-hedge-index.ts:368-378 | the demotion leaves eligible what was written or unevaluated, of what was eligible |
| S2Pass.RefreshSports | scripts/refresh-hedge-index.ts:266-378 | eligible afterwards: affirmed, or eligible before and unread; unchanged when the fetch failed or nothing spoke; rejected rows left without price or size |
| S2Pass.UnreadKeepsEligibility | scripts/refresh-hedge-index.ts:294-298 | a fetched market whose depth could not be read keeps what it had |
| S2Pass.NoDepthIff | scripts/refresh-hedge-index.ts:359-368 | with no depth read nothing changes if and only if the fetch failed, or it brought something and all of it has both mids, or all that was eligible is in it with both mids |
| S2Pass.NoDepthYetDemoted | scripts/refresh-hedge-index.ts:290-363 | an instance in which it demotes |
| DeckRefresh.RefreshDeck | scripts/refresh-deck.ts:42-114 | the pass is its upserts then the stamp; no existing row's status, outcome or time changes, new rows are OPEN; both counts |
| DeckRefresh.RefreshStaleBooks | scripts/refresh-deck.ts:163-198 | a picked row read with two executable prices carries what was read, one read without is left with no price or size, every other row and column stays; on a vanished row it fails there, with nothing stamped |
| Sweep.MapLimit | scripts/poller.ts:233-247 | under every schedule it ends within four moves an item and one a worker, items started in queue order and each ended once |
| Sweep.AdvanceValid | scripts/poller.ts:194-247 | every move of any worker, whatever the answer, keeps the pool's invariant |
| Sweep.ReachableValid | scripts/poller.ts:233-247 | so it holds in every state of every schedule |
| Sweep.AdvanceShrinks | scripts/poller.ts:235-244 | every move brings the end nearer |
| Sweep.InFlightBound | scripts/poller.ts:235 | on every schedule, at any moment, no more items in flight than the limit and the list allow |
| Sweep.ErrorsExactly | scripts/poller.ts:238-243 | `onError` is called for exactly the items a call threw on |
| Sweep.VerdictsExactly | scripts/poller.ts:221-222 | the settlements made are exactly those some worker committed |
| Sweep.VerdictsReported | scripts/poller.ts:176-222 | a market is settled only to what Gamma or the chain answered about it earlier in the sweep |
| Sweep.OutcomeAsNamed | scripts/poller.ts:176-192 | the outcome and status an undecided market ends with are those Gamma or the chain named for it |
| Sweep.NamedIsSettled | scripts/poller.ts:194-222 | and what they name is acted on: once all workers are done, that market is settled to that outcome unless a later call on it threw |
| Sweep.ProbeBudget | scripts/poller.ts:49-54 | on every schedule at most 25 probes, each for another overdue Polymarket market, and none refused before all are granted |
| Sweep.ProbedOrRefusedExactly | scripts/poller.ts:204-219 | probed or refused are exactly the Polymarket markets that Gamma left open past their deadline, for a match three hours past it |
| Sweep.OvertakenFew | scripts/poller.ts:209-212 | on every schedule fewer markets than workers are refused although a younger one was probed |
| Sweep.OldestFirstIff | scripts/poller.ts:46-49 | no older market is ever refused for a younger one if and only if there is one worker or no more than 25 Polymarket items |
| Sweep.OldestCanBeRefused | scripts/poller.ts:46-49 | for every other list, a schedule that refuses the oldest Polymarket item and probes 25 younger ones |
| Sweep.SweepsAgree | scripts/poller.ts:486-492 | two sweeps with the same verdicts leave the same bets and balances, whatever their limits and schedules |
| Alerts.Watch.SubsystemFailed | scripts/poller.ts:118-130 | pages exactly when the subsystem's own current failure run reaches three, and keeps counters and messages those of the whole history |
| Alerts.Watch.SubsystemOk | scripts/poller.ts:131-136 | sends a recovery exactly when the run it ends had reached three, and keeps the same |
| Alerts.StreakIsTail | scripts/poller.ts:113-117 | each counter is the length of that subsystem's own current failure run |
| Alerts.StreakPaging | scripts/poller.ts:113-136 | pages are the failure runs of at least three, recoveries those runs a success closed, strictly alternating |
| Alerts.Alarmed.Check | scripts/poller.ts:415-427 | sends an alarm or an all-clear exactly when the alarms still outstanding in its history call for one |
| Alerts.NoticesExactly | scripts/poller.ts:669-677 | exactly when an alarm and an all-clear are sent, over any time-ordered looks |
| Alerts.AlarmsFarApart | scripts/poller.ts:416-423 | two alarms with no all-clear between are more than the interval apart |
| Alerts.AlarmsInStretch | scripts/poller.ts:669-673 | a stretch without all-clear sends at most one alarm an interval, and one more |
| StockDeck.StockTable.Rerank | scripts/refresh-stocks.ts:107-124 | whatever the old flags, the flagged rows are a top of the pool: trading, priced, 150 of them or all there are; no other column changes |
| StockDeck.WinnersAreTop | src/lib/stocks.ts:125-145 | in any reading order the winners are as many as possible, outranked by nobody eligible outside |
| StockDeck.TopIsDeepest | src/lib/stocks.ts:122-145 | in the rows' own numbers: nobody left out has a deeper pool, or as deep a one and a larger market cap, and a missing number never beats a present one |
| StockDeck.SortRanked | src/lib/stocks.ts:137-145 | the sort by `deckRank` keeps the ids and puts no higher rank behind a lower one |
| StockDeck.FlagsMove | scripts/refresh-stocks.ts:119-123 | between the two updates the winners are all flagged; after them, only the winners |

## Left out

- Prices, quoting and the checks that routes make before their transaction (`src/app/api/swipe/route.ts`,
  `src/lib/hedge/accept.ts:1-128`): a step carries the price and stake it was given.
- Gamma, the chain, order books, Telegram and the other services: their answers are parameters, or open choices.
- Shards, points, streaks, artifacts, the daily swipe cap and the eligibility gates of top-ups: they decide whether a
  step happens, or touch tables without money; a refused one is no step.
- Operator scripts and the test-account reset that rewrite balances or delete paper bets (`src/lib/dev.ts`): a run does
  not contain them.
- Real-money positions: their fills, closes and micro-unit profits. A real bet appears once, then is settled with a
  given profit; re-entries into a closed position are not steps.
- The crypto pass of the hedge index: its rejected ids are a parameter of `S2Pass.RefreshSports`, its writes are steps.
- Columns that nothing here decides on (questions, labels, mid prices, token ids, `lastPolledAt`, `settledAt`), and the
  counters that only feed logs.
- The refresh passes do not interleave with other clients inside their methods; the steps they consist of do in runs.
- Row ids are counters where the database draws random ones, and bets and lots are append-only lists.
- Repeated hedge accepts: the telemetry upsert is an insert.
- The sponsor and the backlog throttle are one class, `Alerts.Alarmed`; what they look at is an input.
- `Math.round` is on exact quotients; the rounding error of floating-point division is not modelled.
- Characters are Unicode scalars, not UTF-16 units; the regular expressions are modelled on them.
- The value of a number literal, property reads, truthiness and both equalities are the host's, and can be anything.
- JSX, the DOM, helmet and raw HTML rewriting other than attribute names; component errors and conditional mounting.
- Pricing and paging of the stock catalog, time budgets, heartbeats and the poller's lease.
- Alerts.NoticesExactly: assumes a clock past zero, since the code stores 0 for "no alarm outstanding".
- Syntax.RoundTrip: leaves out quoted texts with unbalanced brackets or an operator at depth zero in them, because the
  scanners do not know quotes; `Syntax.QuotedTextIff`, `Syntax.QuotedOperandIff` and `Syntax.QuotedRightIff` cover such
  texts alone and as either side of a comparison, not deeper inside other expressions.
