# Tripod-library optimiser, modelled in Dafny

`la-tripods.cc` chooses which items to store in a tripod library. Each item
goes to one row of a page, costs some gold, and grants up to three tripods
(traits). The library has a fixed number of free slots per row (the `book`).
The program looks for the selection that maximises, in this order:
1. the number of priority tripods obtained;
2. the number of tripods obtained;
3. the cost, minimised — in the code's uint32 sense, described below.

It reports every new best selection as it finds one.

This project models the optimiser's core:
- the `Item` record;
- the `Score` comparison `BetterThan` with `tripod_count`;
- the `Assignment` frame;
- `Optimize`: the per-tripod candidate index, then the explicit-stack backtracking loop with its two prunes.

Modules:

- `Catalog` (`catalog.dfy`): `Item` and the candidate index.
  - `BuildIndex` is the nested loop that builds the index.
  - `Candidates(items, t)` is its specification: every catalog index, in order, once per slot holding `t`.
- `Scoring` (`scoring.dfy`): `Score`, `TripodCount` (popcount of the mask and a filter) and `BetterThan`.
  - The 64-bit tripod mask is the set of tripod ids it holds; tripod `t` is bit `t - 1`.
  - `-cost` is the uint32 negation `Neg32`.
- `Selection` (`selection.dfy`): what a selection of items is worth.
  - `ScoreOf` gives its mask and cost; `CountRow` gives the items per row.
  - It also relates the `used` flags, read in catalog order, to the selection the frames made.
  - `UsedItems` is the loop that lists the used items when a new best is found.
- `Ranking` (`ranking.dfy`): a mixed-radix encoding of the frames' cursor progress. It gives the search loop its termination measure.
- `Optimizer` (`optimizer.dfy`): the frames and the loop invariant.
  - `Step` is one loop iteration as a function on values: `Leaving` (release or prune), `FirstFree` (the cursor scan) and `Entering` (select, refill, report). `Run` is the whole loop as the sequence of reports it makes.
  - The methods `Leave`, `Advance` and `Enter`, combined in `Visit`, perform one iteration on the arrays; `Visit` computes exactly `Step`, and `Search` returns exactly the reports of `Run`.
  - The lemmas about `Step` (`StepFacts`, `StepScan`) carry the invariant, the progress measure and the reporting rules.
- `Scenario` (`scenario.dfy`): a three-item catalog on which `Optimize` is evaluated iteration by iteration. Its only report is not the best selection (see "Only frame T's selections are compared" below).

How the source is represented:
- The `used` flags are an `array<bool>` indexed like the catalog.
- `book` is an `array<nat>`. `Optimize` receives it by value, so it copies it.
- The stack of `Assignment`s is a sequence that the loop reassigns.
- A frame's cursor is `Cursor.Unset` for the `size_t(-1)` sentinel, and `At(i)` otherwise. Incrementing `Unset` gives index 0, as the unsigned wrap does.
- Each "new best" block of console output becomes a `Report(score, picked)` value, appended to the result sequence. `picked` lists the used items' catalog indices in ascending order.

Four behaviours of the code that a reader may not expect:
- **Cost key.** The header comment (la-tripods.cc:15) promises the total cost minimised. The key at line 53 is the uint32 negation of the `uint32_t` cost, not an integer minus. Among positive costs it ranks the cheaper first, but a cost of 0 ranks below every positive cost (`Scoring.ZeroCostRanksLast`). The model follows the code.
- **Stack refill.** After a selection at frame k < T, the stack is refilled to all T frames, not extended by one. Frames k+1 .. T-1 are placeholders that carry frame k's score. They get their first visit, and their prunes, only when the stack is popped down to them.
- **Repeated tripods.** An item whose slots hold the same tripod twice appears twice in that tripod's candidate list.
- **Only frame T's selections are compared.** Scores are compared only when frame T selects an item (lines 115-117).
  - Both prunes act on a frame's first visit only (lines 93-99) and pop it before it can select, so a pruned frame never gets an item of its own.
  - After a selection, the frames above it are refilled as placeholders (line 116) and visited first. A redundant frame in the middle of the stack therefore does not stop the frames above it from selecting and being compared.
  - A selection is lost when frame T itself is pruned: the frames below keep their items, but the branch ends without a comparison.
  - `Scenario.ScenarioReports` shows an example. Item 0 (row 0, 5 gold) grants tripod 1, item 1 (row 1, 3 gold) grants tripods 1 and 2, and item 2 (row 0, 1 gold) grants tripod 2. Rows 0 and 1 each have one free slot, and tripod 1 has priority. `Optimize` reports only items 0 and 1, for 8 gold.
  - Item 1 alone (3 gold) fits the book and beats that report (`Scenario.CheaperSelectionMissed`). It would be compared only if frame 2 selected it with frame 1 empty, which only the start state allows. There the priority test at line 95 pops frame 2, because the empty score lacks tripod 1 (`Scenario.FirstPruneIsPriority`).
  - Items 1 and 2 (4 gold) also fit and beat the report (`Scenario.FullSelectionMissed`). After item 1 on frame 1, tripod 2 is already obtained, so the redundancy test at lines 93-94 pops frame 2 before it can select item 2.

## Model

| member | source | states |
|---|---|---|
| Catalog.MaxTrait | la-tripods.cc:76 | the number of candidate lists is at least every tripod id in the catalog, and is 0 or some item's tripod id |
| Catalog.CandidatesCount | la-tripods.cc:72-79 | item i occurs in the list of tripod t exactly as many times as t occurs among its slots; indices outside the catalog never occur |
| Catalog.CandidatesMembers | la-tripods.cc:72-79 | i is in the list of t if and only if i is a catalog index and item i carries t |
| Catalog.CandidatesOrdered | la-tripods.cc:73-77 | candidate lists are in catalog order and hold catalog indices only |
| Catalog.CandidatesBeyondMax | la-tripods.cc:76 | the list of a tripod above the largest id is empty, so growing the outer vector adds empty lists |
| Catalog.PartialListStep | la-tripods.cc:74-77 | indexing one slot appends the item to the list of the tripod in that slot and leaves every other list unchanged |
| Catalog.IndexEmptySlot | la-tripods.cc:75 | a slot holding 0 leaves the partial index unchanged |
| Catalog.GrowIndex | la-tripods.cc:76 | resizing the outer vector to tripod t keeps the partial index correct |
| Catalog.IndexTraitSlot | la-tripods.cc:76-77 | resizing, then appending the item to list t - 1, indexes one more slot |
| Catalog.IndexItem | la-tripods.cc:73-78 | once all slots of item i are indexed, the lists are the index of items 0..i |
| Catalog.BuildIndex | la-tripods.cc:72-79 | the nested loop yields MaxTrait(items) lists, and list t - 1 is the candidate list of tripod t |
| Scoring.LowBits | la-tripods.cc:70 | the mask `(1 << n) - 1` holds exactly the tripod ids 1..n |
| Catalog.Candidates | la-tripods.cc:72-79 | the candidate list of a tripod holds catalog indices only |
| Scoring.Neg32 | la-tripods.cc:53 | the uint32 negation of a cost is a uint32 value that adds to the cost to give 0 modulo 2^32 |
| Scoring.Score.TripodCount | la-tripods.cc:58 | popcount of the mask and a filter counts at most the tripods held and at most the bits asked for, and all the tripods held exactly when the filter covers them |
| Scoring.Score.BetterThan | la-tripods.cc:51-56 | the priority count decides first: a better score never has fewer priority tripods, and more priority tripods always make a better score |
| Scoring.FullMaskCountsAll | la-tripods.cc:58 | tripod_count with the default all-ones mask counts every tripod of a 64-bit mask |
| Scoring.BetterThanIsStrictOrder | la-tripods.cc:51-56 | BetterThan is irreflexive, asymmetric and transitive |
| Scoring.Neg32Value | la-tripods.cc:53 | the uint32 negation of a cost c is 0 for c = 0 and 2^32 - c otherwise |
| Scoring.Neg32Order | la-tripods.cc:53 | the negated cost of a is larger than that of b if and only if a is positive and b is 0 or larger than a |
| Scoring.BetterThanMeaning | la-tripods.cc:51-58 | a beats b if and only if it has more priority tripods, or as many and more tripods, or as many of both and a cheaper cost in the uint32 sense |
| Scoring.ZeroCostRanksLast | la-tripods.cc:53-55 | with equal masks, a positive cost beats a cost of 0, never the reverse |
| Selection.Add | la-tripods.cc:109-113 | extending a score by an item loses no tripod and no cost; the tripods gained are the item's non-empty slots, all of which are in the new mask |
| Selection.SelectionSnoc | la-tripods.cc:109-113 | adding one item to a selection adds its cost, ORs in its tripods and counts it in its row |
| Selection.AddCommutes | la-tripods.cc:109-113 | the score after two items does not depend on their order |
| Selection.ScoreOfTraits | la-tripods.cc:110-113 | tripod t is in a selection's mask if and only if some selected item carries t in a non-empty slot |
| Selection.ScoreOfCost | la-tripods.cc:109 | m items of uint16 cost cost at most m * 65535 in total, so 32 of them stay below 2^32 |
| Selection.DistinctSnoc | la-tripods.cc:105-107 | a selection stays without repeats when the added item is not already in it, and only then |
| Selection.FlagsSnoc | la-tripods.cc:91-107 | selecting an item (line 107) sets exactly its used flag, and releasing it (line 91) clears the flag again |
| Selection.AscendingSpec | la-tripods.cc:122-125 | the listed items are exactly the used ones, each once, in increasing index order |
| Selection.FlagSet | la-tripods.cc:122-125 | setting one more flag adds that item's score, row count and one entry to what the flags list |
| Selection.FlagSetBefore | la-tripods.cc:122-125 | the same as FlagSet when the flag is not the last one |
| Selection.AscendingNone | la-tripods.cc:122-125 | with no flag set, nothing is listed |
| Selection.FlagsOfSelection | la-tripods.cc:117-125 | the used items, read in catalog order, have the same score, row counts and number as the selection the frames made |
| Selection.UsedItems | la-tripods.cc:122-125 | the loop lists the indices of the used items, in increasing order, each exactly once |
| Ranking.EncBelow | la-tripods.cc:84 | a progress vector encodes below the number of possible vectors, so the measure stays a natural number; a mixed-radix fact that only supports the termination of `Optimizer.Run`, as the source states no measure |
| Ranking.EncFirstDigit | la-tripods.cc:84-131 | vectors whose first entries differ compare as those entries; it only supports the termination of `Optimizer.Run` |
| Ranking.EncLexIncrease | la-tripods.cc:84-131 | the encoding is strictly monotone in the lexicographic order of progress vectors; it only supports the termination of `Optimizer.Run` |
| Optimizer.ImprovingSnoc | la-tripods.cc:117-118 | a report that beats the last best extends a strictly improving report sequence |
| Optimizer.ImprovingChain | la-tripods.cc:117-118 | in an improving report sequence, every report beats every earlier one |
| Optimizer.Pruned | la-tripods.cc:93-99 | only a frame on its first visit is pruned; among the priority frames only the redundancy test (the frame's tripod already in the previous mask) prunes |
| Optimizer.RanksAreDigits | la-tripods.cc:84-105 | each frame's progress (0 before its first candidate, c + 1 at candidate c, list length + 1 once popped) stays below its base |
| Optimizer.Progress | la-tripods.cc:84-131 | popping the top frame, or moving its cursor forward, strictly raises the progress measure |
| Optimizer.RanksBelow | la-tripods.cc:84 | the progress measure is bounded by the number of progress vectors |
| Optimizer.ScoresPrefix | la-tripods.cc:130-131 | popping frames keeps every remaining frame's score consistent with its predecessor's |
| Optimizer.TopFrameScore | la-tripods.cc:109-116 | the top frame's score is the score of the frames below it plus its own item, if any |
| Optimizer.FrameScores | la-tripods.cc:88-116 | the top frame's score is the mask (union of tripods) and total cost of the items all frames hold |
| Optimizer.PicksUnsets | la-tripods.cc:116 | the placeholder frames added when the stack is refilled hold no item |
| Optimizer.DropUnset | la-tripods.cc:93-99 | popping a placeholder keeps the invariant with the same flags and book |
| Optimizer.Release | la-tripods.cc:90-92 | the released item was used; clearing its flag and giving its row the slot back keeps the invariant for the frames below |
| Optimizer.BookTake | la-tripods.cc:108 | taking a free slot of the selected item's row keeps free slots plus selected items equal to the initial book |
| Optimizer.BookPut | la-tripods.cc:92 | giving the slot back on release keeps the same balance |
| Optimizer.SelectScores | la-tripods.cc:109-116 | the new frame's score (previous score plus the item) followed by placeholders carrying it keeps all frame scores consistent |
| Optimizer.SelectPicks | la-tripods.cc:107-116 | after the selection and the refill, the frames hold the earlier items plus the selected one |
| Optimizer.Select | la-tripods.cc:107-116 | selecting an unused item whose row has a free slot, and refilling the stack, keeps the invariant (no repeats, flags exact, book balanced, scores consistent) |
| Optimizer.ReportFacts | la-tripods.cc:117-125 | at frame T the compared score is the score of the used items listed in catalog order; they respect the book, number at most T, and cost below 2^32 |
| Optimizer.FrameCostBound | la-tripods.cc:109 | with at most 32 frames of uint16 item costs, every frame's cost stays below 2^32, so the uint32 sum never wraps |
| Optimizer.StartInv | la-tripods.cc:81-82 | T placeholder frames with the empty score, no used item and the initial book satisfy the invariant |
| Optimizer.EndState | la-tripods.cc:84-132 | when the stack is empty no flag is set and the book is back to its initial value |
| Optimizer.Leaving | la-tripods.cc:88-100 | the release of the top frame keeps the lengths of flags and book, only clears flags and only gives slots back; a placeholder changes nothing; the scan resumes at the frame's progress (0 for a placeholder, c + 1 after candidate c) |
| Optimizer.Entering | la-tripods.cc:107-127 | selecting candidate c refills the stack to T frames above the frames below, the frame at c; the item becomes used and its row loses a free slot; a report is made exactly when this is frame T and its score strictly beats the best, and that score becomes the best; otherwise the best is kept |
| Optimizer.Step | la-tripods.cc:84-131 | one iteration pops the top frame or refills the stack to T frames, keeping the frames below; a pruned frame is popped with nothing else changed; a report comes only from frame T, strictly beats the best and becomes the best; otherwise the best is kept |
| Optimizer.Run | la-tripods.cc:84-132 | the reports the loop makes from a state until the stack is empty: each strictly beats the one before it, the first beats the state's best, and each is a valid selection within the book, scored by its items |
| Optimizer.Reports | la-tripods.cc:81-132 | the reports of the whole search from T placeholders, nothing used and the empty best: strictly improving from the empty score, each a valid selection within the book |
| Optimizer.FirstFree | la-tripods.cc:102-105 | the scan result lies between the cursor start and the list end, and a position before the end holds an unused candidate whose row has a free slot |
| Optimizer.FirstFreeSkips | la-tripods.cc:102-105 | every candidate the scan passes over is used or its row has no free slot, so the scan stops at the first eligible one |
| Optimizer.LeavingKeepsInv | la-tripods.cc:88-100 | releasing the top frame's item (or leaving a placeholder) keeps the invariant of the frames below, and the scan resumes at the frame's progress |
| Optimizer.EnteringFacts | la-tripods.cc:107-127 | selecting an eligible candidate keeps the invariant and refills the stack to T frames with the frame taking that candidate; a report comes only from frame T, beats the best, becomes the best and is valid |
| Optimizer.EnteringState | la-tripods.cc:107-116 | selecting an eligible candidate keeps the invariant and refills the stack to T frames above the frames below, the frame taking that candidate |
| Optimizer.EnteringShape | la-tripods.cc:107-116 | the new stack is the frames below, the frame at candidate c with the previous score plus the item, and placeholders carrying that score; exactly the item's flag is set and one slot of its row taken |
| Optimizer.EnteringReport | la-tripods.cc:117-125 | at frame T, the used items listed in catalog order form a valid selection within the book whose score is the top frame's score |
| Optimizer.PopOutcome | la-tripods.cc:130-131 | a pop to a state keeping the invariant is a good outcome of an iteration |
| Optimizer.EnterOutcome | la-tripods.cc:102-127 | a selection at or after the frame's progress is a good outcome of an iteration |
| Optimizer.StepFacts | la-tripods.cc:84-131 | one iteration keeps the invariant and strictly raises the progress measure; it pops the top frame or refills the stack to T frames; a pruned frame is popped and nothing else changes; a report comes only from frame T, strictly beats the best, becomes the best and is a valid selection |
| Optimizer.StepScan | la-tripods.cc:90-105 | a frame that is not pruned is popped exactly when, after the release, no candidate from its progress on is unused with a free row slot; otherwise it moves to the first such candidate and its score becomes the previous score plus that item |
| Optimizer.RunStep | la-tripods.cc:84-132 | the reports of the loop from a non-empty stack are the report of one iteration, if any, followed by the reports from its result |
| Optimizer.ReportsStep | la-tripods.cc:117-118 | after an iteration the reports are still valid and strictly improving, and the best score is the last one reported |
| Optimizer.RunAdvance | la-tripods.cc:84-132 | across one iteration, the reports made so far followed by the rest of the run stay the reports of the whole run |
| Optimizer.SearchStep | la-tripods.cc:84-132 | one iteration keeps the loop invariant (Inv; reports valid and strictly improving; the best is the last report) and lowers the bounded progress measure |
| Optimizer.SearchStart | la-tripods.cc:81-83 | the loop invariant holds before the first iteration, with no report made and the whole run ahead |
| Optimizer.SearchEnd | la-tripods.cc:84-132 | at the empty stack the reports made are all the reports of the run, and every flag and book entry is back to its initial value |
| Optimizer.Index | la-tripods.cc:72-79 | the candidate index has one list per tripod id up to the largest in the catalog, and holds catalog positions only |
| Optimizer.OptimizeReports | la-tripods.cc:69-133 | the reports of Optimize, the search over the candidate index: strictly improving from the empty score, each a valid selection within the book |
| Optimizer.Advance | la-tripods.cc:102-105 | the scan returns exactly FirstFree: the first candidate from the cursor on that is not used and has a free row slot, or the end of the list; every skipped candidate was used or its row was full |
| Optimizer.Accumulate | la-tripods.cc:109-113 | the new frame score is the previous score with the item's cost added and every non-empty slot's bit set |
| Optimizer.Take | la-tripods.cc:107-108 | selecting sets exactly the item's used flag and takes one slot of its row |
| Optimizer.PutBack | la-tripods.cc:91-92 | releasing clears exactly the item's used flag and gives one slot back to its row |
| Optimizer.Leave | la-tripods.cc:88-100 | the new flags, book and scan start are exactly Leaving: a frame holding an item clears its flag, gives its row the slot back and resumes after it; a placeholder changes nothing and starts at 0; pruned is exactly Pruned |
| Optimizer.Enter | la-tripods.cc:107-127 | the new stack is the frames below, the frame at candidate c with the previous score plus the item, and placeholders carrying that score up to T frames; exactly the item's flag is set and one slot of its row taken; a report is made if and only if this is frame T and the score strictly beats the best, and it holds that score and the used items in catalog order |
| Optimizer.Visit | la-tripods.cc:84-131 | the new stack, flags, book, best and report are exactly those of Step on the old state |
| Optimizer.Search | la-tripods.cc:81-132 | the reports are exactly those of the run from T placeholders (Reports); every used flag and book entry is back to its initial value; every report is a valid selection within the book, scored by its items; reports strictly improve |
| Optimizer.Optimize | la-tripods.cc:69-133 | the reports are exactly those of the search over the candidate index from the caller's flags and book; they are valid and strictly improving, and the used flags end as they began |
| Scenario.ScenarioIndex | la-tripods.cc:72-79 | the candidate index of the three-item catalog lists items 0 and 1 for tripod 1 and items 1 and 2 for tripod 2 |
| Scenario.ScenarioRun | la-tripods.cc:84-133 | on that catalog, with one priority tripod and one free slot in each of rows 0 and 1, the search reports items 0 and 1 (8 gold) and nothing else |
| Scenario.ScenarioReports | la-tripods.cc:69-133 | Optimize on that catalog reports items 0 and 1 (8 gold) and nothing else |
| Scenario.CheaperSelectionMissed | la-tripods.cc:51-56 | item 1 alone fits the book, obtains the priority tripod, and strictly beats the only report |
| Scenario.FirstPruneIsPriority | la-tripods.cc:93-99 | from the start state, frame 2 is pruned by the priority test and not the redundancy test: its tripod is not in the empty mask, and that mask lacks the priority tripod; unpruned, it would select item 1 and report item 1 alone |
| Scenario.FullSelectionMissed | la-tripods.cc:93-94 | items 1 and 2, one on each frame's candidate list, fit the book and strictly beat the only report; with item 1 on frame 1, tripod 2 is already obtained, so frame 2 is popped before it can select item 2 |

## Left out

- `Main` and `main` (la-tripods.cc:135-296) are not part of this model. They hold the hard-coded catalog, book and priority count, which here are inputs.
- The console output (la-tripods.cc:119-121, 124, 126) is replaced by `Report` values. The mask rendering, counts and formatting are not modelled.
- Fixed-width limits are preconditions (`Optimizer.Setting`, `Optimizer.Optimize`), not modelled behaviour:
  - at most 32 tripods, because the `int` shift `1 << (tripod - 1)` at line 93 is undefined from 33 on (at 32 it yields INT_MIN, whose extra high bits no tripod id up to 32 sets);
  - fewer than 64 priority tripods, for the shift at line 70;
  - field widths of `Item`.
- Pointer identity (`Item*`) is modelled by catalog indices. The `used` field lives in a separate array indexed like the catalog.
- The tripod mask is a set of tripod ids rather than a `uint64_t`. This is sound because every id is between 1 and 32.
- Costs are natural numbers without the uint32 wrap on addition (line 109). `Optimizer.FrameCostBound` shows the wrap never happens: every frame's cost stays below 2^32.
  - Each frame's score is the score of the items held by the frames up to it (`Optimizer.FrameScores`). There is at most one item per frame and at most 32 frames.
  - `Selection.ScoreOfCost` bounds that cost by 32 * 65535.
  - Only the negation in the comparison key wraps, and it is modelled (`Scoring.Neg32`).
- `book` entries are natural numbers rather than `uint8_t`. They never exceed their initial value (`Optimizer.Booked`).
- Optimizer.Optimize: requires every used flag to be clear on entry, as `Item::used` is initialised to false (line 47). With flags already set, the model says nothing.
- Optimizer.Optimize: requires at most 32 tripod ids, so the configuration hard-coded in `Main` is not covered. Its enum (la-tripods.cc:141-196) has 53 tripods, and item 42 (line 253) carries id 53; the call is at line 291. For that catalog, line 93's shift is undefined at frames 33 to 53, and at frame 32 it tests tripods 32 to 64 instead of tripod 32.
- Optimality of the last report is not claimed, because it does not hold. Both prunes can discard a better selection, even when a selection obtaining every priority tripod exists.
  - The priority prune (line 95) is documented in the source (lines 96-98) as working only when such a selection exists. In the `Scenario` catalog one exists, item 1 alone, and the priority prune discards it (`Scenario.FirstPruneIsPriority`, `Scenario.CheaperSelectionMissed`).
  - The redundancy prune (lines 93-94) discards items 1 and 2 in the same catalog (`Scenario.FullSelectionMissed`).
  - What is proved about the reports is that they are valid and strictly improving.
