# Verification of the memory benchmark's optimisers, organizer and adapter server

This project models, in Dafny, the algorithms of the memory benchmark under `benchmarks/amb` and the adapter
server under `packs`, and proves what they promise for every input, every run and every reachable state.

- **Optimisers.** `OneToOneAssignment` is the dynamic program that pairs gold items with candidates, and
  `SelectionMetrics` the recall computed from it; `BoundedCover` the (used, mask) program for covering gold turns
  with at most `count` records, next to its brute-force form; `MonotonicPath` the best nondecreasing choice of
  source turns; `HandleCap` the greedy coverage selector; `CapacityPlanner` the confident-items-first assigner;
  `SwapRescue` the steepest-swap search.
  Each dynamic program is a method with loops, proved optimal against all matchings, selections or paths.
- **Organizer.** `TruncatedRecovery` reads complete handles from a reply that was cut off. `OrganizerBounds`
  gives, as functions, what membership and size bounds make of a handle list; `Assignments` what applying a
  reply's assignments does; `Organizer` is the handle list as a class whose methods change it in place.
  `EvenSpread` holds the rounding argument behind both trimming routines. `ConcernMerge` is the sibling
  merge-and-bound pass over concern records.
- **Adapter server.** `AdapterServer` is the state machine of requests, mounts and unmounts over one model,
  with the shared state as a class.
- **Conservation and round trip.** `LossLedger` is the loss-bucket ledger, `MemoryBlocks` the printer and
  parser of numbered memory blocks.

`Wrappers`, `Lists`, `StringOrder`, `Sums` and `Arithmetic` hold shared vocabulary. `MatchingLaws`, `CoverLaws`,
`MentionLaws`, `PlannerLaws`, `SwapLaws`, `ObjectText`, `ReplyText`, `AdapterLaws`, `LossShares` and `BlockLaws` say,
without the specification functions, what those functions compute: positions, counts, sums and orders written out.
`dafny verify dfyconfig.toml` checks everything.

Scores, similarities and losses are real numbers. A bit mask is the set it stands for. A dictionary whose
iteration order does not matter to a result is iterated in any order (`Pick`), so the results hold for every order.

## Findings

Five stated or expected properties hold only under a condition, which is given exactly.

- The loss ledger does not always close. The attribution of instruction and preference rows stores deficits rounded
  to six digits, and the budget divides the stored numbers, so the shares can exceed one. The double-counting error
  is raised if and only if that excess passes what all categories leave unassigned by more than the tolerance
  (`LossLedger.Analyze`, `LossLedger.RoundingCanDoubleCount`, `LossLedger.FittingDeficitsCloseTheLedger`).
- `matched_recall` never falls when candidates are added if and only if the threshold is positive, or at most -1,
  where every item counts. An unmatched item scores 0.0 and so counts as recalled at a threshold of zero or less,
  and a match of lower similarity then loses it (`SelectionMetrics.RecallNeverFallsExactly`).
- Enforcing the organization bounds twice changes nothing if and only if bounding leaves no two handles of one
  label with the same evidence. Distinct labels are enough; without them trimming can make two handles equal
  (`OrganizerBounds.SecondPassIsIdleExactly`, `OrganizerBounds.DistinctTitlesStayPut`,
  `OrganizerBounds.SecondPassCanRemoveAHandle`).
- A row reported chronological need not have a monotonic path: the flag drops first mentions without a turn. Any
  row has a path if and only if taking the least possible turn for each item never gets stuck; a chronological row
  whose first mentions all have a turn never does, and one with an untimed first mention may or may not
  (`MonotonicPath.RecoverableExactly`, `MonotonicPath.TimedChronologicalRowsNeverGetStuck`,
  `MonotonicPath.ChronologicalRowCanBeUnrecoverable`, `MonotonicPath.UntimedRowCanBeRecoverable`).
- A request for a loaded adapter runs it if and only if its name is not `current`, or at most one client was noted
  and that client last mounted it. A mount under the empty name reads as no mount, because the server tests the
  name's truth value (`AdapterServer.LoadedAdapterRunsExactly`, `AdapterServer.CurrentIsTheClientsOwn`).

## Model

| member | source | states |
|---|---|---|
| OneToOneAssignment.OneToOnePairs | benchmarks/amb/analyze_membership_funnel.py:149-194 | the result is a matching with min(targets, elements) pairs, and no matching of that size has more qualifying pairs, or as many and a higher total |
| OneToOneAssignment.Relax | benchmarks/amb/calibrate_rollup_membership.py:522-542 | one inner pass keeps every state a real matching with its own score, improves on every earlier state, and covers every way to give the element to a free target |
| OneToOneAssignment.StepIsComplete | benchmarks/amb/calibrate_rollup_membership.py:520-544 | after each candidate, every matching of the candidates so far is matched or beaten by the state with its targets |
| OneToOneAssignment.SomeLargestMatching | benchmarks/amb/calibrate_rollup_membership.py:507-511 | every partial matching grows to a largest one without losing a qualifying pair |
| MatchingLaws.ScoreMeans | benchmarks/amb/calibrate_rollup_membership.py:520-536 | a matching scores the number of its pairs that reach the threshold and the sum of the similarities of all its pairs |
| MatchingLaws.OptimalMeans | benchmarks/amb/calibrate_rollup_membership.py:545-553 | written out: an optimal matching has the most pairs; none with as many has more pairs at the threshold, or as many of those and a greater sum |
| MatchingLaws.RecalledMeans | benchmarks/amb/calibrate_rollup_membership.py:583-619 | recall counts the gold items whose score, 0.0 when unmatched, reaches the threshold |
| SelectionMetrics.HitsAreMaximal | benchmarks/amb/calibrate_rollup_membership.py:507-553 | cardinality first costs nothing: no partial matching of any size has more qualifying pairs than the result |
| SelectionMetrics.RecallNeverFalls | benchmarks/amb/calibrate_rollup_membership.py:575-619 | for a positive threshold, the number of recalled gold items never falls when candidates are added anywhere in the selection |
| SelectionMetrics.RecallFallsWithoutPositiveThreshold | benchmarks/amb/calibrate_rollup_membership.py:592-619 | for a threshold of zero or less, adding a first candidate less similar than the threshold lowers recall from one to zero |
| SelectionMetrics.RecallNeverFallsExactly | benchmarks/amb/calibrate_rollup_membership.py:575-619 | for cosine similarities, adding candidates never lowers recall if and only if the threshold is positive or at most -1 |
| BoundedCover.BestBoundedCover | benchmarks/amb/analyze_concern_membership.py:101-157 | fails exactly for a count below one; otherwise no selection of at most `count` collections comes before the result in coverage, cost, size and index order, and turns and recall are those of the selection |
| BoundedCover.OptimalIsUnique | benchmarks/amb/analyze_concern_membership.py:141-149 | coverage and the tie-breaks single out one index tuple |
| CoverLaws.OptimalMeans | benchmarks/amb/analyze_concern_membership.py:125-149 | written out: nothing else covers more, or as much at less cost, or at that cost with fewer records, or with as many and an index list that is smaller where the two first differ |
| CoverLaws.CoveredMeans | benchmarks/amb/analyze_concern_membership.py:112-137 | a selection covers exactly the gold turns of its collections |
| CoverLaws.CostMeans | benchmarks/amb/analyze_concern_membership.py:112-137 | the cost counts off-gold turns once for each chosen collection |
| BoundedCover.OfferOne | benchmarks/amb/analyze_concern_membership.py:131-138 | extending one state keeps every entry a selection with its own size, coverage and cost, and never worsens an entry |
| BoundedCover.StepIsComplete | benchmarks/amb/analyze_concern_membership.py:125-139 | after each candidate, every selection of useful collections so far is represented by a state at least as good |
| BoundedCover.UsefulPart | benchmarks/amb/analyze_concern_membership.py:112-123 | leaving collections without gold turns out of the candidates never loses the optimum, tie-breaks included |
| BoundedCover.BestCover | benchmarks/amb/analyze_organizer_membership.py:170-194 | the brute force returns exactly min(count, groups) groups that no other such choice beats |
| CoverLaws.BruteOptimalMeans | benchmarks/amb/analyze_organizer_membership.py:170-194 | written out: the brute-force choice has the most gold turns, then the fewest off-gold turns, then the fewest turns |
| BoundedCover.BoundedCoverMatchesBruteForce | benchmarks/amb/analyze_concern_membership.py:101-157 | on the same input the dynamic program and the brute force cover equally many gold turns |
| MonotonicPath.SelectMonotonicMatches | benchmarks/amb/audit_event_ordering_gold.py:93-126 | nothing is returned exactly when no nondecreasing choice of one match per item exists; otherwise the result has the greatest total of all such choices |
| MonotonicPath.PathMeans | benchmarks/amb/audit_event_ordering_gold.py:107-113 | a path is exactly a choice of one listed match per item, each with a turn, whose turns never fall |
| MonotonicPath.PenaltyIsNotNegative | benchmarks/amb/audit_event_ordering_gold.py:188-218 | no monotonic path outscores the independent best matches, so the reported penalty is never negative |
| MentionLaws.FirstMentionMeans | benchmarks/amb/audit_event_ordering_gold.py:79-90 | the first mention is the first listed of the plausible matches of least turn, and the top match when none is plausible |
| MentionLaws.MatchedTurnsMean | benchmarks/amb/audit_event_ordering_gold.py:179-184 | the compared turns are exactly those of the first mentions that have one, in item order |
| MentionLaws.IndependentIsTotal | benchmarks/amb/audit_event_ordering_gold.py:194-198 | when every item has a match, the independent score is the total of the top matches |
| MonotonicPath.ChronologicalRowsFollowFirstMentions | benchmarks/amb/audit_event_ordering_gold.py:179-187 | the first mentions of a row reported chronological are a monotonic path if and only if every item has one with a turn |
| MonotonicPath.RecoverableExactly | benchmarks/amb/audit_event_ordering_gold.py:93-126 | a row has a monotonic path if and only if taking, item by item, the least turn not below the one before never gets stuck |
| MonotonicPath.ChronologicalRowsAreRecoverable | benchmarks/amb/audit_event_ordering_gold.py:79-90 | a chronological row whose first mentions all have a turn is recoverable, and its penalty is at most the first-mention delta times the number of items |
| MonotonicPath.UntimedRowCanBeRecoverable | benchmarks/amb/audit_event_ordering_gold.py:79-90 | a first mention without a turn does not rule a path out: a lower match with a turn can save the row |
| MonotonicPath.ChronologicalRowCanBeUnrecoverable | benchmarks/amb/audit_event_ordering_gold.py:179-187 | the flag drops matches without a turn: a row whose only match has none is reported chronological and has no path |
| MonotonicPath.TurnlessItemsAreUnrecoverable | benchmarks/amb/audit_event_ordering_gold.py:107-118 | an item none of whose matches has a turn makes the row unrecoverable |
| EvenSpread.IndexesIncrease | benchmarks/amb/global_organizer_probe.py:268-276 | for n > m the rounded positions are strictly increasing, so m distinct items are kept |
| EvenSpread.EndsAreKept | benchmarks/amb/first_mention_preflight.py:214-217 | the first and the last position are always kept |
| EvenSpread.KeptItemsAreDistinct | benchmarks/amb/global_organizer_probe.py:268-279 | trimming distinct items leaves distinct items |
| EvenSpread.KeepIsEvenSpread | benchmarks/amb/global_organizer_probe.py:268-276 | item i kept is the one nearest to i * (n - 1) / (m - 1), the even one of two |
| EvenSpread.NearestIsUnique | benchmarks/amb/global_organizer_probe.py:268-276 | only one integer is nearest in that sense |
| EvenSpread.ChronoStratified | benchmarks/amb/first_mention_preflight.py:208-217 | all relevant items when they fit the cap, else exactly the evenly spread ones, or the first |
| TruncatedRecovery.Reader.RecoverTruncated | benchmarks/amb/global_organizer_probe.py:55-86 | the recovery loop returns the recovered handles of the content, none unless the reply was cut for length |
| TruncatedRecovery.Reader.RecoveryIsPrefixMonotone | benchmarks/amb/global_organizer_probe.py:55-86 | what a shorter reply yields is the beginning of what any continuation of it yields |
| TruncatedRecovery.Reader.OnlyHandlesFromReplies | benchmarks/amb/global_organizer_probe.py:65-86 | every recovered handle is a closed, valid object with all required keys |
| ReplyText.CompleteRepliesAreRecovered | benchmarks/amb/global_organizer_probe.py:55-86 | in a reply cut for length, after the first text made of the label, white space, a colon, white space and an opening bracket, every complete handle of the run is recovered, whatever follows |
| ReplyText.MarkerMeans | benchmarks/amb/global_organizer_probe.py:60 | the marker expression matches exactly such a text |
| ReplyText.FirstMarkerIsFound | benchmarks/amb/global_organizer_probe.py:60-63 | the first such text is the marker that is found |
| ReplyText.RecoveredIsWritten | benchmarks/amb/global_organizer_probe.py:65-86 | what follows the marker is the recovered handles, each after blanks and commas, and a rest at whose start none is read |
| ReplyText.HandleMeans | benchmarks/amb/global_organizer_probe.py:74-86 | a printed object is a handle exactly when it reads as JSON and has the five keys |
| ObjectText.PrintedObjectsAreClosed | benchmarks/amb/global_organizer_probe.py:74-80 | the scan of an object ends exactly at its closing brace, whatever it nests or quotes |
| HandleCap.CapRecovered | benchmarks/amb/global_organizer_probe.py:89-134 | the handles at the picked positions, in source order, and the number of known ids they list; all handles when they fit; otherwise at most `limit`, each pick the first handle of greatest gain, stopping early only if nothing is left to gain; and the greedy coverage bound against every choice of at most `limit` handles |
| HandleCap.GreedyRunIsUnique | benchmarks/amb/global_organizer_probe.py:106-128 | the gains and the earliest-handle tie-break fix every pick |
| HandleCap.BoundMeans | benchmarks/amb/global_organizer_probe.py:106-128 | written out: k^k times the shortfall against any choice of at most k handles is at most (k-1)^k times what that choice covers |
| HandleCap.PickKeepsBound | benchmarks/amb/global_organizer_probe.py:106-128 | one greedy pick multiplies the shortfall against every rival choice by at most (k-1)/k |
| HandleCap.ChoiceGain | benchmarks/amb/global_organizer_probe.py:107-122 | a choice of handles adds at most its size times the best single gain |
| CapacityPlanner.Plan | benchmarks/amb/global_organizer_probe.py:442-491 | items are ranked by margin, best score and index; exactly min(items, free room) of the most confident are placed, within room, and nobody prefers a handle that still had room on its turn |
| PlannerLaws.RankingMeans | benchmarks/amb/global_organizer_probe.py:453-469 | written out: greater margins come first, infinite ones before all, then greater best scores, then later items |
| PlannerLaws.MarginMeans | benchmarks/amb/global_organizer_probe.py:453-466 | an item's margin is the lead of its best open handle over the best other one, and infinite exactly with fewer than two open |
| PlannerLaws.BetterHandlesWereFull | benchmarks/amb/global_organizer_probe.py:470-491 | a more similar handle, or a later one as similar, was full before the item's turn |
| CapacityPlanner.PreferredHandlesEndFull | benchmarks/amb/global_organizer_probe.py:470-491 | every handle an item strictly prefers to its own ends full |
| CapacityPlanner.StablePlanIsUnique | benchmarks/amb/global_organizer_probe.py:470-491 | these promises leave one plan: any two stable plans for a ranking agree on every assignment |
| Assignments.RepliesAreContained | benchmarks/amb/global_organizer_probe.py:310-349 | whatever a reply says, handles only grow at their end, by placed ids, never beyond the cap, and keep ids unique |
| Assignments.EntryMeans | benchmarks/amb/global_organizer_probe.py:320-348 | for any entry: unexpected ids and bad numbers are reported and change nothing else; otherwise each named handle with room ends with the id, each full one is reported, and no more happens |
| Assignments.PlacedIdsAreHeld | benchmarks/amb/global_organizer_probe.py:320-348 | an id reported as assigned was expected and some handle holds it |
| Assignments.PlansAreAdmitted | benchmarks/amb/global_organizer_probe.py:310-349 | a fitting plan is admitted in full: no invalid entry, and each handle ends with its old ids followed by exactly the ids planned for it |
| Assignments.StablePlansFit | benchmarks/amb/global_organizer_probe.py:442-491 | a stable plan for distinct ids that no handle holds is a fitting plan |
| Organizer.HandleList.constructor | benchmarks/amb/global_organizer_probe.py:176-184 | normalisation lists each id of a handle once |
| Organizer.HandleList.ApplyAssignments | benchmarks/amb/global_organizer_probe.py:310-349 | the in-place loop leaves the handles, placed ids and issues of the specification |
| Organizer.HandleList.AssignByCapacity | benchmarks/amb/global_organizer_probe.py:821-838 | the plan is the stable plan for the unassigned ids in string order and the given similarities; it has min(unassigned, room) entries, none is invalid, and every id reaches its planned handle |
| Organizer.HandleList.EnforceBounds | benchmarks/amb/global_organizer_probe.py:209-307 | fails exactly for a bound below one, changing nothing; otherwise the first handle of each label and evidence set stays, bounded as below, without those left empty, and every count and the dropped ids are those of the references taken away |
| Organizer.HandleList.CompleteSingletons | benchmarks/amb/global_organizer_probe.py:352-374 | appends, in string order, one verbatim handle for each distinct known unassigned id and nothing else |
| Organizer.HandleList.Finish | benchmarks/amb/global_organizer_probe.py:1063-1080 | the result is the bounded list followed by one verbatim handle for each known id that list lost; every known id is held, by at most the allowed number of handles, and no handle is empty or over its cap |
| Organizer.HandleList.AssignAndFinish | benchmarks/amb/global_organizer_probe.py:821-1080 | the capacity pass followed by bounds and completion: min(unassigned, room) ids are placed, none of them is lost to the bounds or completed again, and the result is well organized |
| OrganizerBounds.UncrowdedIdsStay | benchmarks/amb/global_organizer_probe.py:240-289 | an id whose handles all fit the cap is never lost by enforcement |
| OrganizerBounds.PermittedOwnersBound | benchmarks/amb/global_organizer_probe.py:240-248 | ranking owners by size and position permits at most the allowed number of them |
| OrganizerBounds.BoundedHandleMeans | benchmarks/amb/global_organizer_probe.py:240-289 | written out: a handle keeps the known ids that fewer than the allowed number of its owners, smaller or equal and earlier, hold; all of them in its order when they fit the cap, else an even spread in source order; unknown ids follow |
| OrganizerBounds.KeepersAreSmall | benchmarks/amb/global_organizer_probe.py:240-256 | a handle keeps a known id only if fewer than the allowed number of owners are smaller, or equal and earlier |
| OrganizerBounds.LosersAreLarge | benchmarks/amb/global_organizer_probe.py:240-263 | a handle whose entitled ids fit the cap loses a known id only to that many such owners |
| OrganizerBounds.DeduplicatedSelects | benchmarks/amb/global_organizer_probe.py:220-236 | deduplication keeps, in order, the handles that no earlier one equals in label and evidence set |
| OrganizerBounds.MembershipCutsCount | benchmarks/amb/global_organizer_probe.py:257-263 | the membership removals are the references held by handles beyond the allowed owners |
| OrganizerBounds.CapacityCutsCount | benchmarks/amb/global_organizer_probe.py:264-280 | the capacity removals are the references a handle is entitled to and does not keep |
| OrganizerBounds.DropsMean | benchmarks/amb/global_organizer_probe.py:279-304 | an id is listed as dropped exactly when some handle is entitled to it and does not keep it |
| OrganizerBounds.MembershipsAreBounded | benchmarks/amb/global_organizer_probe.py:240-263 | after enforcement no known id is in more than the allowed number of handles |
| OrganizerBounds.HandlesAreBounded | benchmarks/amb/global_organizer_probe.py:253-289 | after enforcement no handle has more known ids than the cap, none is empty, and ids stay unique |
| OrganizerBounds.ReferencesAreConserved | benchmarks/amb/global_organizer_probe.py:249-306 | known references after deduplication are those kept plus the membership and the capacity removals |
| OrganizerBounds.LostIdsAreReported | benchmarks/amb/global_organizer_probe.py:221-304 | an id of the input that ends in no handle is listed as dropped |
| OrganizerBounds.SecondPassIsIdleExactly | benchmarks/amb/global_organizer_probe.py:221-289 | enforcing twice changes nothing if and only if, in the deduplicated input, bounding leaves no two handles of one label with the same ids |
| OrganizerBounds.DistinctTitlesStayPut | benchmarks/amb/global_organizer_probe.py:221-289 | with distinct labels a second application changes nothing |
| OrganizerBounds.SecondPassIsIdle | benchmarks/amb/global_organizer_probe.py:221-289 | enforcing twice changes nothing exactly when the first pass left no two handles of one identity |
| OrganizerBounds.SecondPassCanRemoveAHandle | benchmarks/amb/global_organizer_probe.py:223-289 | two handles of one label that differ in a trimmed id become one identity, and a second application changes the list |
| SwapRescue.RescueSelection | benchmarks/amb/calibrate_rollup_membership.py:439-477 | the selections form a run of best swaps from the start set, each gaining more than the margin; with swaps to spare, no swap gains more; the selection stays duplicate-free with min(target, candidates) ids and at most one new id a swap; with base scores only and a margin of zero or more, no selection with so few replacements has a higher total once all swaps are taken, and a run that stops early is beaten by at most the margin for each id replaced |
| SwapLaws.BestSwapMeans | benchmarks/amb/calibrate_rollup_membership.py:459-474 | written out: a best swap gains more than the margin and as much as any other; of equal ones it has the greatest incoming and then the greatest outgoing id |
| SwapLaws.DeltaMeans | benchmarks/amb/calibrate_rollup_membership.py:414-436 | a swap's gain is the difference of the two scores against the selection without the outgoing id, redundancy lowering and novelty raising a score |
| SwapLaws.StartMeans | benchmarks/amb/calibrate_rollup_membership.py:440-453 | the start set is the first baseline ids that are candidates, then the best other candidates, smaller ids first among equals |
| SwapRescue.StartIsUnique | benchmarks/amb/calibrate_rollup_membership.py:440-453 | the baseline picks and the best of the rest fix the start set and its order |
| SwapRescue.RoundIsUnique | benchmarks/amb/calibrate_rollup_membership.py:457-476 | the greatest swap, ties broken by incoming and then outgoing id, fixes the next selection |
| SwapRescue.ExhaustedIsOptimal | benchmarks/amb/calibrate_rollup_membership.py:455-476 | after all allowed best swaps no selection with at most that many new ids has a higher total |
| SwapRescue.StuckIsOptimal | benchmarks/amb/calibrate_rollup_membership.py:473-474 | when no swap gains more than the margin, another selection of that size gains at most the margin for each id it brings in |
| SwapRescue.SwapExchanges | benchmarks/amb/calibrate_rollup_membership.py:461-476 | a gaining best swap brings in an id never selected before and removes one from the start set |
| ConcernMerge.MergeCrossHandleDuplicates | benchmarks/amb/concerns_from_organizer.py:195-251 | the result is the merge pass over the records sorted by size, topic and position, followed by the bounding pass; no evidence is invented, no id is in more than the allowed records, and no record is empty |
| ConcernMerge.MergeStepMeans | benchmarks/amb/concerns_from_organizer.py:208-229 | a candidate without a duplicate is added; otherwise it is merged into the first one, in place |
| ConcernMerge.MergedIdsMean | benchmarks/amb/concerns_from_organizer.py:209-213 | a merged record lists its own ids, then the candidate's other ids in their order, cut to six |
| ConcernMerge.ShortRecordsLoseNothing | benchmarks/amb/concerns_from_organizer.py:209-213 | a record of at most six ids keeps them all in place, and what is cut came from the candidate |
| ConcernMerge.SameConcernMeans | benchmarks/amb/concerns_from_organizer.py:184-192 | two records are one concern when their topics differ, they share a token, and they share half of either one's ids |
| ConcernMerge.BoundPassMeans | benchmarks/amb/concerns_from_organizer.py:231-251 | each merged record keeps, in order, the ids that fewer than the allowed number of records before it hold, and stays if there are any |
| ConcernMerge.LostIdsWereCut | benchmarks/amb/concerns_from_organizer.py:208-244 | an input id in no record afterwards stood past the sixth place of the union some merge step formed |
| ConcernMerge.CutIdsArePastSixth | benchmarks/amb/concerns_from_organizer.py:208-213 | the ids a merge pass cuts are exactly those past the sixth of the union of some merge step |
| ConcernMerge.ShortRecordsStayShort | benchmarks/amb/concerns_from_organizer.py:208-251 | if every input record has at most six ids, so has every output record |
| ConcernMerge.MergeInventsAndLosesNothing | benchmarks/amb/concerns_from_organizer.py:199-229 | after the merge pass the ids held or cut are exactly the input's ids |
| ConcernMerge.BoundPassMemberships | benchmarks/amb/concerns_from_organizer.py:231-244 | bounding keeps each merged id in at least one record and at most the allowed number |
| AdapterServer.NamedRequestsRunTheirName | packs/serve_compiled.py:121-161 | after every run, a request naming anything but `current` runs that adapter if it was loaded at the start or by any mount that found it, and the base weights if not |
| AdapterServer.LoadedAdapterRunsExactly | packs/serve_compiled.py:121-161 | a request for a loaded adapter runs it if and only if its name is not `current`, or at most one client was noted and that client last mounted it |
| AdapterServer.CurrentIsNotItsAdapter | packs/serve_compiled.py:137-155 | an example: an adapter named `current` is loaded at the start, and a request for it runs the base weights |
| AdapterServer.CurrentIsTheClientsOwn | packs/serve_compiled.py:137-154 | in every run, while an adapter is loaded, `current` is refused with two clients noted and otherwise runs what the same client last mounted, the base weights if nothing or an empty name |
| AdapterLaws.LastDecisionCounts | packs/serve_compiled.py:276-302 | what a client last mounted is fixed by its last mount that found a capability, or unmount |
| AdapterServer.CurrentIsRefusedForGood | packs/serve_compiled.py:146-150 | once two clients have posted and an adapter is loaded, every later `current` request is refused |
| AdapterServer.Stepped | packs/serve_compiled.py:86-303 | every step keeps: mounted is nothing or a loaded adapter, and the model is wrapped exactly when an adapter is loaded |
| AdapterServer.Server.constructor | packs/serve_compiled.py:86-118 | loading leaves the requested adapters whose files exist in their order, the first active, nothing mounted, no client |
| AdapterLaws.ExistingSelects | packs/serve_compiled.py:94-118 | the adapters loaded are the requested ones whose files exist, in the requested order |
| AdapterServer.Server.NoteClient | packs/serve_compiled.py:231-236 | noting adds the client and changes nothing else |
| AdapterServer.Server.MountCap | packs/serve_compiled.py:276-297 | a found capability is loaded if needed, activated and mounted; one not found changes nothing |
| AdapterServer.Server.UnmountCap | packs/serve_compiled.py:298-302 | unmounting turns the layers off, forgets the mount and reports it |
| AdapterServer.Server.Run | packs/serve_compiled.py:121-177 | the locked section switches the model as the state machine says and replies with the weights it ran |
| LossLedger.Analyze | benchmarks/amb/audit_category_loss_funnel.py:534-637 | for scores in [0, 1], the double-counting error is raised if and only if the excess that six-digit rounding assigns in the two deficit categories passes what all categories leave unassigned by more than the tolerance; otherwise the buckets are those of the attributed summaries, none is negative, and they sum to the total loss, exactly unless the excess passes what is left |
| LossLedger.LedgerBalances | benchmarks/amb/audit_category_loss_funnel.py:379-430 | total loss less the four assigned buckets is what the categories leave unassigned less the rounding excess |
| LossLedger.RoundingCanDoubleCount | benchmarks/amb/audit_category_loss_funnel.py:288-300 | two instruction rows of score 1/3, one lost in retrieval and one retrieved, raise the double-counting error |
| LossLedger.FittingDeficitsCloseTheLedger | benchmarks/amb/audit_category_loss_funnel.py:288-300 | when the rounded own and reader deficits fit the rounded total in both categories, nothing is assigned twice |
| LossLedger.OverrunIsOneStep | benchmarks/amb/audit_category_loss_funnel.py:288-300 | the rounded own and reader deficits overrun the rounded total by one millionth at most |
| LossLedger.CeilingEstimate | benchmarks/amb/audit_category_loss_funnel.py:349-455 | the double-counting error is raised exactly when the assigned points exceed the total by more than the tolerance, and the decomposition error never |
| LossLedger.AttributionsAreFair | benchmarks/amb/audit_category_loss_funnel.py:249-346 | for scores in [0, 1] no share is negative, and the shares the budget assigns exceed one exactly when a category attributed by deficit has rounded own and reader deficits above its rounded total |
| LossShares.ItemSharesMean | benchmarks/amb/audit_category_loss_funnel.py:301-340 | in categories counted by items the own share is that of the items lost in retrieval, the reader's that of those lost in the answer, and synthesis is counted apart; label defects are counted over the zero-score rows |
| LossShares.AbstentionSharesMean | benchmarks/amb/audit_category_loss_funnel.py:301-340 | for abstention the dominant zero-score rows are the own share and the others the reader's |
| LossShares.DeficitSharesMean | benchmarks/amb/audit_category_loss_funnel.py:273-300 | for instruction and preference rows the shortfall of rows whose target was lost in retrieval is the own share, mismatched targets are label defects, and the rest is the reader's, each rounded |
| LossShares.LoneStagePays | benchmarks/amb/audit_category_loss_funnel.py:362-404 | points lost only in retrieval, in a category counted by items, go to the direct bucket in full; lost only in the answer, to the reader bucket |
| LossShares.DirectPays | benchmarks/amb/audit_category_loss_funnel.py:389-400 | the direct bucket takes event ordering and temporal reasoning whole, and the own share of the other audited categories |
| LossShares.LossMeans | benchmarks/amb/audit_category_loss_funnel.py:358-362 | a category loses ten points times the mean miss of its scores |
| LossLedger.NothingIsDoubleCounted | benchmarks/amb/audit_category_loss_funnel.py:385-437 | when in every category the assigned shares are at most one, dead, reader, direct and undiagnosed buckets together are within the total loss |
| MemoryBlocks.Alphabet.RoundTripExactly | benchmarks/amb/build_hybrid_contexts.py:11-71 | splitting a rendered context returns the bodies exactly when every body is stripped, not empty and without a block title of its own |
| MemoryBlocks.Alphabet.RenderedPieces | benchmarks/amb/build_hybrid_contexts.py:11-25 | a rendered context has at least one piece a body, and no more only if no body has a title of its own |
| MemoryBlocks.Alphabet.BoundaryInContext | benchmarks/amb/build_hybrid_contexts.py:11 | a boundary inside a body depends on the body alone, between a line start and a line end |
| BlockLaws.RenderMeans | benchmarks/amb/build_hybrid_contexts.py:68-71 | block i of a rendered context is titled with digits that read back as i + 1, over body i, and blank lines join the blocks |
| BlockLaws.BoundaryMeans | benchmarks/amb/build_hybrid_contexts.py:11 | a boundary is a line start with the title, at least one digit, and the end of the word after the digits |
| BlockLaws.PiecesMean | benchmarks/amb/build_hybrid_contexts.py:19-25 | a text is cut at every boundary after its first position and nowhere else |
| BlockLaws.TitleLineIsRemoved | benchmarks/amb/build_hybrid_contexts.py:12-26 | a block that starts with a title line loses it |

## Left out

- OneToOneAssignment.OneToOnePairs: does not fix which of several equally good matchings is returned, as it depends on dictionary order; pairs are listed by target, not as a sorted list of tuples.
- MonotonicPath.SelectMonotonicMatches: does not model the last tie-break by turn tuple, which only chooses among paths of one total.
- BoundedCover.BestCover: does not fix which of several equally good choices is returned; it takes any order of the combinations.
- HandleCap.CapRecovered: the pre-cap and post-cap counts of the report are the lengths of its input and output and are not repeated.
- Organizer.HandleList.EnforceBounds: owners are ranked by counting the smaller ones instead of by sorting.
- Organizer.HandleList.constructor: labels and summaries arrive stripped, and anchor entities, with the report of evidence ids misplaced among them, are not modelled.
- Organizer.HandleList.Finish: models a run with singleton completion switched on; without that option unassigned ids stay unassigned.
- Organizer.HandleList.AssignAndFinish: models the embedding assignment mode, where nothing changes the handles between the two passes.
- AdapterServer.Server.MountCap: the search for a capability, including the check of its base revision, is the parameter `found`.
- AdapterServer.Stepped: a client note is one step and an adapter load does not fail midway.
- TruncatedRecovery.Reader.RecoverTruncated: which object texts are valid JSON, and their keys, is a parameter; the scan for the closing brace is modelled.
- SwapRescue.RescueSelection: redundancy, temporal and session novelty are uninterpreted functions; optimality is proved where their weights are zero, as with them the score is not additive.
- LossLedger.CeilingEstimate: rounding a value only to report it, and the projections derived from the buckets, are not modelled; neither is the token coverage that decides an item's stage.
- ConcernMerge.MergeCrossHandleDuplicates: the record identity digest is not modelled; content tokens are given; records that tie in size, topic and local position may be merged in either order.
- Floating-point rounding, including that of the even-spread quotient and of cosine similarities.
- Selectors by first mention and by leader clustering, the other diagnostics of the same files, and budget prefix caps: they would add easier members.
- HTTP calls, embeddings, model loading and generation, file and database access, command lines.
- The Rust engine: its sources are not part of this model.
