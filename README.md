# Deal or No Deal — game engine model

A Dafny model of the game engine in `script.js` of the Deal-or-No-Deal browser game: eight
briefcases hold a shuffled copy of an eight-prize table; the player takes one case, opens
cases in three picking phases (3, 2 and 1 cases), hears a dealer offer after the first two
phases, may accept it (deal) or refuse it (no deal), and after the third phase keeps their
case or switches to the one other closed case.

Modules:

- `Common` (`common.dfy`): `Option`, `Distinct`, `Filter` and multiset facts.
- `Prizes` (`prizes.dfy`): the ordered prize table, the allowed-offer fragments, `indexOf`
  ranks, the case-assignment predicate, lower-casing and substring search.
- `Shuffle` (`shuffle.dfy`): the Fisher–Yates shuffle on a copied array, with the random
  index drawn at each step given as a parameter, proved to be a permutation.
- `Offer` (`offer.dfy`): the dealer's offer (`computeDealerOffer`) as pure functions
  over the case assignment, the player's case and the opened set, with the random pick as
  an index parameter; lemmas for what the offer can and cannot be.
- `Resolution` (`resolution.dfy`): the index logic of the final keep/switch reveal and the
  index the win overlay reads.
- `Engine` (`game.dfy`): the module-level state as class `Game`, each event handler as one
  atomic method (`initGame`, a case click, deal, no deal, dismissing the win overlay,
  keep/switch), the invariant `Valid` they keep, and two whole-game consequences.

Randomness is a parameter: `Math.random()` in the offer pick is a real `rand` in [0, 1),
and the shuffle's draws are a sequence `draws` with `draws[i] <= i`. The visibility of the
dealer overlay, the keep/switch area and the win overlay is kept as three booleans, because
their buttons (and the `d`/`n`/`k`/`s` keys) act only while they are shown; the handlers
require them.

Three behaviours of the code that a reader might not expect, modelled as written:

- A switch never updates `playerCaseIndex` (script.js:466-484 and 492-507 leave it alone),
  and `getFinalPrizeForDisplay` reads that index (script.js:486-489). So after a switch
  the win overlay shows the original case's prize while the final reveal reports the
  switched-to case's prize (`Engine.Game.KeepOrSwitch`, `Engine.SwitchShowsOriginalPrize`).
- There is no end phase after a deal: the deal handler leaves `phase` (1 or 2) and
  `picksNeeded` as they were (script.js:402-415), and dismissing the win overlay unlocks the board
  (script.js:455-459). Further clicks then drive the quota below zero and make the dealer
  call again (`Engine.QuotaAfterDealGoesNegative`).
- Whether a prize may be offered is decided by substring matches of five fragments on
  the lower-cased label (script.js:373-376); `Prizes.OfferableTable` works out which
  table labels pass.

## Model

| member | source | states |
|---|---|---|
| Prizes.IndexOfSpec | script.js:359 | `indexOf`: -1 exactly when the label is absent, otherwise the position of its first occurrence |
| Prizes.OfferableTable | script.js:373-376 | the lower-cased substring test accepts exactly the T-shirt, the signed poster, the gift card and the basketball tickets (ranks 2 to 5) among the table's labels |
| Prizes.AssignmentFacts | script.js:20-29 | a permutation of the prize table holds no prize twice, gives every case a proper rank, no two cases the same rank, and no case the label "No Offer" |
| Shuffle.FisherYates | script.js:106 | the swap steps from position k-1 down to 1 rearrange the sequence: same length, same multiset |
| Shuffle.Shuffled | script.js:106 | the whole shuffle under any valid draws keeps the length and the multiset of its input |
| Shuffle.Shuffle | script.js:106 | the in-place loop over a copied array returns exactly `Shuffled(a, draws)`, a permutation of `a` |
| Shuffle.Swap | script.js:106 | the destructuring swap exchanges positions i and j of the array and leaves every other position as it was |
| Shuffle.ShuffledDistinct | script.js:106 | shuffling a list without repeats gives a list without repeats |
| Engine.ShuffledTableIsAssignment | script.js:194 | every shuffle of the prize table is a case assignment (eight cases, the table's prizes) |
| Offer.SortByRank | script.js:361 | the sort returns a permutation of its input in ascending rank order |
| Offer.MaxRank | script.js:364 | `Math.max` of the ranks is at least every rank and is the rank of some entry |
| Offer.CollectedMembers | script.js:356-360 | an entry is pushed exactly when it is the prize and rank of a case that is neither the player's nor opened |
| Offer.CollectedDistinct | script.js:355-360 | with distinct case prizes, the collected list repeats no entry |
| Offer.RemainingMembers | script.js:355-361 | the sorted remaining list holds exactly the eligible cases' prize/rank entries |
| Offer.RemainingEmptyIff | script.js:355-362 | the remaining list is empty exactly when every case is the player's or opened |
| Offer.RemainingStrictlyRanked | script.js:355-361 | with well-ranked cases the sorted remaining list rises strictly in rank |
| Offer.NonHighestMembers | script.js:364-365 | the filtered list holds exactly the remaining entries ranked below the top remaining rank |
| Offer.NonHighestOfStrict | script.js:364-365 | on a strictly ranked list, dropping the highest rank drops exactly the last entry |
| Offer.Candidates | script.js:373-379 | the pick's candidate list is non-empty whenever any case remains |
| Offer.PickIndex | script.js:381 | `Math.floor(Math.random() * n)` lands in 0..n-1 for n > 0 |
| Offer.OfferEntry | script.js:362-382 | with a case left, the offer is the prize of a remaining entry, and of one below the top rank whenever there is one, except when the pick falls past the candidates and the lowest remaining prize is taken |
| Offer.DealerOffer | script.js:354-383 | with every case the player's or opened, the offer is "No Offer" |
| Offer.NoOfferExactlyWhenNoCaseLeft | script.js:355-362 | the offer is "No Offer" if and only if no case is both unopened and not the player's |
| Offer.OfferIsAnEligibleCasePrize | script.js:355-382 | when a case remains, the offer is the prize of a case that is neither opened nor the player's |
| Offer.OfferNeverTheHighestRemaining | script.js:364-382 | with two or more cases left, on any call and any pick, some case left holds a prize ranked above the offer |
| Offer.OfferIsOfferableWhenPossible | script.js:373-381 | outside the second call, if a non-top case left holds an offerable prize and the pick lands in the candidates, the offer is offerable |
| Offer.SecondOfferIsLowerMedian | script.js:367-371 | on the second call with two or more cases left, the offer is the lower median of the cases left without the top one: (k-1)/2 of them rank below it and k/2 above |
| Offer.MedianOfStrict | script.js:367-371 | on a strictly ranked list of two or more, the second-call offer is the entry at position (k-1)/2 of the non-highest list |
| Resolution.UnopenedFrom | script.js:493 | the filter over 0..7 lists exactly the closed cases other than the original one, in ascending order |
| Resolution.FinalOutcome | script.js:492-507 | the final and other indices are board cases, and the other case differs from the final one |
| Resolution.FinalOutcomeChoice | script.js:493-506 | keep ends on the original case; switch ends on the lowest-numbered closed non-original case, or on the original with no other case when none is closed; one of final/other is the original |
| Resolution.RevealOrder | script.js:509-517 | the final sequence makes at most two reveals, each of a board case, and never opens the same case twice |
| Resolution.RevealOrderCuesOnlyTheFinalCase | script.js:508-516 | at most two reveals, each of a closed case; the win cue plays with the final case and no other, exactly when it was closed, and as the last reveal |
| Resolution.TwoRevealsAtTheEnd | script.js:492-516 | with the original and exactly one other case closed, the order is: the case not chosen without the cue, then the chosen one with it |
| Engine.Game.constructor | script.js:53-61 | the page's start state followed by `initGame` |
| Engine.Game.InitGame | script.js:193-203 | the cases are the shuffle of the prize table, phase and quota 0, no player case, nothing opened, board unlocked, no dealer call, overlays hidden; from any state |
| Engine.Game.Reset | script.js:194-203 | the given deal, phase and quota 0, no player case, nothing opened, no dealer call yet, `overlayVisible` cleared and every overlay hidden; the last offer text is kept |
| Engine.Game.RevealCase | script.js:302-304 | the opened set gains the index; an index already opened changes nothing |
| Engine.Game.CaseClicked | script.js:242-298 | a locked board, an index off the board, an opened case, a phase outside 0..3 or the player's own case in phases 1-3 leave the state unchanged; phase 0 takes the case as both player indices with phase 1 and quota 3; phases 1-3 open the case and lower the quota by one, then call the dealer (phases 1-2, call count +1) or move to phase 4 (phase 3) when the quota is used up |
| Engine.Game.OpenCase | script.js:263-295 | an accepted click in phases 1-3: the case joins the opened set, the quota drops by exactly one, and the end-of-phase step follows when it reaches 0 or below |
| Engine.Game.QuotaUsedUp | script.js:286-295 | phases 1 and 2 raise the dealer call count by one and show the offer computed for the new count; phase 3 moves to phase 4 and shows the keep/switch choice |
| Engine.Game.ComputeDealerOffer | script.js:354-383 | the push loop, sort and pick compute `DealerOffer` for the current state and the drawn index |
| Engine.Game.OpenDealer | script.js:387-398 | the board locks and the dealer overlay shows with the given offer recorded; nothing else changes |
| Engine.Game.ShowDealerOffer | script.js:386-397 | the board locks, the dealer overlay shows, and the recorded offer is the computed one |
| Engine.Game.NoDeal | script.js:417-426 | the dealer overlay closes and the board unlocks; phase 1 becomes 2 with quota 2, phase 2 becomes 3 with quota 1; nothing else changes |
| Engine.Game.RevealPlayerCaseForDeal | script.js:430-433 | the player's case joins the opened set |
| Engine.Game.Deal | script.js:402-415 | the dealer overlay closes, the player's case is opened, the win overlay shows the offer; phase and quota stay as they were |
| Engine.Game.DismissWinOverlay | script.js:455-459 | the win overlay closes and the board unlocks |
| Engine.Game.FinalPrizeForDisplay | script.js:486-489 | the displayed prize is always the original case's prize, since the player index is never changed by a switch |
| Engine.Game.FinalRevealSequence | script.js:492-519 | the final index is `FinalOutcome`'s, the reveals made are `RevealOrder`'s and nothing else opens, the final case ends up opened, and the reported prize is the final case's |
| Engine.Game.RevealIfClosed | script.js:509-517 | a closed case is opened and listed as one reveal step with the given cue; an open case is skipped with no step |
| Engine.Game.KeepOrSwitch | script.js:462-484 | the choice closes, the final reveal runs, and the win overlay shows the original case's prize while the reveal announces the final case's |
| Engine.SwitchShowsOriginalPrize | script.js:486-489 | after a switch to another closed case, the shown prize and the announced prize differ |
| Engine.QuotaAfterDealGoesNegative | script.js:402-415 | a deal in phase 1, then dismissing the win overlay and one more click, leaves phase 1 with quota -1 and a second dealer call |

## Left out

- The Ably connection, publishing and the follower page's message handler (script.js:109-132, 536-597): network I/O.
- Building the board, click-blocking styles, labels, images and the keyboard mapping (script.js:135-190, 205-226, 306-350, 600-619): DOM adapter code. Of the keyboard mapping only its guards survive, as the overlay booleans the button methods require.
- Audio, including the background-music start (`ensureBackgroundStarted`, `bgStarted`) and the prize-to-sound mapping: side effects on audio objects.
- Timing: `sleep`, `setTimeout`, `Date.now`, `lastRevealClickStart` and the minimum dealer delay.
- The win cue of the deal's reveal (script.js:432): the cue is recorded only on the final sequence's reveal steps (`Resolution.RevealStep`); `Engine.Game.Deal` opens the player's case without recording it.
- Interleaving of the async handlers: each handler is modelled as one atomic step. This is a modelling choice; `overlayVisible` does not guarantee it. Two windows are not captured. First, the deal handler clears `overlayVisible` and unlocks the board (script.js:405-406) before it awaits the player's-case reveal and the win-overlay delay (script.js:410-412). Second, the case-click handler clears it (script.js:277) before the minimum dealer delay (script.js:285). Keys 1-8 check only `overlayVisible` (script.js:607). So a second click can run inside either window. For example, after a phase-1 deal, a click during the reveal drives the quota to -1. The click's handler opens the dealer overlay about 3 s after the click (script.js:167, 283-289), and the deal handler opens the win overlay about 3.1 s after the deal (the reveal at script.js:332, then script.js:412). Both overlays end up open; which opens first depends on when the click lands. `Engine.Game.Valid` rules that state out, so the model does not reach it.
- The distribution of `Math.random`: draws are free parameters, and nothing is claimed about uniformity.
- Offer.PickIndex: computes on exact reals, not IEEE doubles; rounding of the double product is not modelled.
- Prizes.ToLower: lower-cases ASCII letters only; every label and fragment in the table is ASCII.
- Engine.Game.InitGame: its contract states the cases are `Shuffled(PrizeListOrdered, draws)`; that this is a case assignment is the separate lemma `Engine.ShuffledTableIsAssignment`.
- Offer.OfferFrom: a pick past the candidate list, which reads as `undefined` and falls back to the lowest remaining prize, is modelled, but `PickIndex` never produces one.
- Shuffle.Shuffle: takes and returns sequences, so "the input is left unchanged" holds by value semantics rather than being stated about an array.
