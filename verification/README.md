# gh-report: a verified model of its protocols, folds, parsers and allocators

gh-report collects security evidence about the repositories and teams of a GitHub organisation,
folds it from an event log into a projection, and publishes a dashboard from that projection. This
project models the parts of it that carry hard invariants and proves them in Dafny. Every statement
is about all inputs, all logs, all runs or all reachable states.

`dafny verify dfyconfig.toml` checks the whole project.

| file | what it models |
|---|---|
| `Projection.dfy` | the evidence projection: an event fold with anti-downgrade guards, deletion records and ghost teams |
| `Publisher.dfy` | the partial publisher: a coalescing, hold-down, shutdown-barrier state machine and its loop |
| `Publication.dfy` | publication admission: capture tokens, deletion witnesses, completeness, capture times, commits |
| `Inventory.dfy` | the inventory authority: two-index deduplication, capped admission, deletion of what disappeared |
| `Assurance.dfy` | guarantees that span the log, the projection, the publication and the inventory |
| `Glob.dfy` | the slash-sensitive glob engine and the relation it decides |
| `Workflow.dfy` | the workflow reader at token level and its inverse |
| `Slab.dfy` | the object slab of the web client's glue, a free list threaded through its own array |
| `EventStore.dfy` | the ephemeral event store, with checked 64-bit arithmetic |
| `Metrics.dfy` | the coverage counters and the drill-down that must agree with them |
| `Codeowners.dfy` | the CODEOWNERS parser |
| `Cfg.dfy` | the three-valued cfg evaluator fused with its parser, and the enum collection |
| `TableSort.dfy` | the table comparators and the stable sort |
| `Domain.dfy`, `Ordering.dfy`, `Wrappers.dfy` | shared entities, ordering and sorting, optional values and results |

Code that updates state in place is a class or a loop with a specification function: each method is
proved to compute that function, and the theorems are about the function. The parsing of timestamps
and numbers, lower-casing, the constructor of event envelopes and the success of writes are
parameters of the model, so the theorems hold whatever they do.

## Where a promise has limits

The model follows the code. Where something that the documentation or a name promises does not hold
for all inputs, a theorem gives the exact condition under which it does, and an input that fails is
exhibited.

- Replaying a log onto the projection it produced is promised to change nothing. That holds from a
  state for every log if and only if no deletion record stands beside a complete live repository
  (`Projection.ReplayIsIdempotentIff`). Runs of `apply` stay within those states; a bulk load, which
  does not touch the records, leaves them exactly when the last entry it loads under the key of a
  record is complete (`Projection.BulkLoadCanBreakReplay`).
- "Coalesce, never drop" holds for every signal the notifier gets before the last look at it. A due
  interval tick is a signal too, but only the notifier is drained at the exit. In a finished run an
  arrival is followed by a render exactly when one is owed already or the loop still consumes
  something afterwards (`Publisher.RenderFollowsIff`); every tick that the loop takes is rendered
  (`Publisher.ConsumedIsRendered`), and a tick alone is rendered iff it is taken
  (`Publisher.LoneTickIsRenderedIffTaken`). One that is not can be dropped
  (`Publisher.DueTickCanBeDropped`).
- Live observations are meant not to go backwards. Every later live publication is at least as recent
  as a given one exactly when that one protects a roster or stands at sequence zero
  (`Publication.LiveOrderIsKeptIff`); otherwise a publication from the plain projection can come in
  between (`Publication.LiveOrderIsLostThroughAProjection`).
- A publication on display that came from a warm start, and only such a one, is replaced without any
  guard (`Publication.GuardIsBypassedIffWarmStart`), so the guarantees over runs speak of runs that
  show none, as all runs without warm starts among their candidates do
  (`Publication.NoWarmStartAmongCandidates`).
- A control with nothing eligible is documented to show the 0/1 floor only after a measurement
  failure. Repositories to which the policy does not apply are counted as unknown, so a population
  takes the floor otherwise exactly when it consists of such repositories alone
  (`Metrics.FloorIsAsDocumentedIff`, and `Metrics.InapplicableTakesTheFloor` for one repository);
  debug builds of the code assert that it does not happen.
- Cells that are no number are documented to sort as negative infinity. Two cells compare as
  documented exactly when no cell that is no number stands beside a NaN, or beside a cell read as
  negative infinity that its text does not precede (`TableSort.ComparesAsDocumentedIff`); a word beside
  `N/A` is such a pair (`TableSort.WordBesideNotAvailable`).
- A NaN makes the numeric comparator no order exactly when it stands among numbers that differ
  (`TableSort.TotalPreorderIff`).
- The cfg reader is meant to give a verdict whenever one is certain. Its verdict is definite exactly
  when the predicate has one value even if the options under an even and under an odd number of `not`s
  are looked up in different builds (`Cfg.VerdictIsExactApart`). Hence it is exact for all predicates
  that read no option both ways (`Cfg.VerdictIsExactWhenOneSigned`), also those that read one
  repeatedly (`Cfg.ReadTwiceWithOneSign`); reading one both ways can hide a certainty
  (`Cfg.BothSignsHideCertainty`).
- Dropping a handle of the slab keeps the free list exactly when the slot is not free already
  (`Slab.DropKeepsTheListIff`); the glue relies on its callers for that.

## Model

| member | source | states |
|---|---|---|
| Projection.EvidenceProjection.constructor | crates/gh-report/src/projection.rs:59-90 | The projection starts empty. |
| Projection.EvidenceProjection.Apply | crates/gh-report/src/projection.rs:142-213 | Applying an event changes the five maps as the fold step does, with both anti-downgrade guards, and nothing else. |
| Projection.EvidenceProjection.ApplyOrgState | crates/gh-report/src/projection.rs:311-321 | An organisation snapshot overwrites unless it would replace a complete one by an incomplete one. |
| Projection.EvidenceProjection.Replay | crates/gh-report/src/projection.rs:142-213 | Applying a log event by event computes the fold of the log. |
| Projection.EvidenceProjection.BulkLoad | crates/gh-report/src/projection.rs:448-454 | A bulk load merges entries by inventory key, the last one winning, and touches only the live repositories. |
| Projection.EvidenceProjection.KeyNameSnapshot | crates/gh-report/src/projection.rs:397-407 | The snapshot lists the inventory key and name of every live repository in strictly increasing order of map keys. |
| Projection.SlotHoldsSelected | crates/gh-report/src/projection.rs:147-166 | A guarded slot holds the last complete observation since its last removal, else the last observation since then, else nothing. |
| Projection.SlotMemory | crates/gh-report/src/projection.rs:147-166 | What a slot remembers of its starting cell after any history: nothing once a removal or a complete observation settles it. |
| Projection.SlotReplay | crates/gh-report/src/projection.rs:147-166 | Feeding a slot the same history twice leaves what feeding it once leaves. |
| Projection.RepositoriesFoldBySlots | crates/gh-report/src/projection.rs:147-180 | Each key of the live repositories evolves as its own guarded slot, from any state. |
| Projection.DeletedFoldsBySlots | crates/gh-report/src/projection.rs:147-180 | Each deletion record evolves as its own slot from any replay-safe state: the guard never interferes with it. |
| Projection.OrgFoldsBySlots | crates/gh-report/src/projection.rs:181-183 | The organisation state is one guarded slot. |
| Projection.RostersFoldBySlots | crates/gh-report/src/projection.rs:184-212 | Each key of the live rosters evolves as its own guarded slot, from any state. |
| Projection.GhostsFoldBySlots | crates/gh-report/src/projection.rs:184-212 | Each ghost roster evolves as its own slot: left by a detach with status Deleted, withdrawn by any other effective event. |
| Projection.FoldIsQuery | crates/gh-report/src/projection.rs:142-215 | After any log from empty every map equals a declarative query over the whole log. |
| Projection.DeletedIffLastIsDelete | crates/gh-report/src/projection.rs:167-180 | A key is recorded as deleted iff its last delete-or-live-observation in the log is a delete, and then with the name and time of that delete. |
| Projection.LiveRepositoriesAreHeld | crates/gh-report/src/projection.rs:147-180 | After any log from empty a repository is live iff the log has an observation of it to hold, the last complete one since its last removal or else the last one, and then with that evidence. |
| Projection.OrgStateIsHeld | crates/gh-report/src/projection.rs:311-321 | The organisation state is the last snapshot of the log whose alerts were collected successfully, or else the last snapshot. |
| Projection.LiveRostersAreHeld | crates/gh-report/src/projection.rs:184-212 | A team has a live roster iff the log has one to hold, the last complete one since its last detach or else the last one, and then that roster. |
| Projection.GhostIffLastLeavesOne | crates/gh-report/src/projection.rs:184-212 | A team is a ghost iff its last effective event is a detach with a deleted roster, and then with that roster. |
| Projection.FoldKeepsDisjoint | crates/gh-report/src/projection.rs:142-215 | In any run of apply a key is never live and deleted, nor a live roster and a ghost. |
| Projection.FoldKeepsReplaySafe | crates/gh-report/src/projection.rs:142-215 | No run of apply puts a deletion record beside a complete live repository. |
| Projection.ReplayIsIdempotent | crates/gh-report/src/projection.rs:142-215 | From every replay-safe state, folding a log twice equals folding it once. |
| Projection.ReplayIsIdempotentIff | crates/gh-report/src/projection.rs:142-215 | All logs replay idempotently from a state iff no deletion record stands beside a complete live repository in it. |
| Projection.BulkLoadCanBreakReplay | crates/gh-report/src/projection.rs:437-454 | From any replay-safe state a bulk load leaves the replay-safe states iff the last entry loaded under the key of some deletion record is complete. |
| Projection.OnlyOwnEventsMatter | crates/gh-report/src/projection.rs:142-215 | What the state says about one subject depends only on that subject's events, from any state. |
| Projection.InterleavingIsIrrelevant | crates/gh-report/src/projection.rs:142-215 | Two logs with the same events in the same order for each subject fold to the same state. |
| Publisher.SignalIsServedOrRemembered | crates/gh-report/src/app/collect.rs:2994-3112 | At any point of any run a signal sent before the last look at the notifier has been followed by a render start or is still remembered. |
| Publisher.CoalesceNeverDrop | crates/gh-report/src/app/collect.rs:2956-3112 | In a finished run every such signal is followed by a render that starts after it. |
| Publisher.DueTickCanBeDropped | crates/gh-report/src/app/collect.rs:2940-3086 | There is a finished run in which an interval tick fell due and no render started. |
| Publisher.RenderFollowsIff | crates/gh-report/src/app/collect.rs:2940-3112 | In a finished run any arrival is followed by a render start iff a render is owed at that point or a signal, tick or buffered signal is consumed afterwards. |
| Publisher.ConsumedIsRendered | crates/gh-report/src/app/collect.rs:2994-3112 | In a finished run every signal and tick that the loop takes is followed by a render. |
| Publisher.LoneTickIsRenderedIffTaken | crates/gh-report/src/app/collect.rs:2940-3112 | A tick that falls due with nothing owed and no signal pending or to come is followed by a render iff the loop takes a tick before it finishes. |
| Publisher.FundsComeFromASignal | crates/gh-report/src/app/collect.rs:2994-3014 | Whenever the publisher owes a render, a signal was consumed with no render started since. |
| Publisher.EveryRenderIsPaidFor | crates/gh-report/src/app/collect.rs:2994-3112 | Each render is paid for by a signal consumed since the previous render started. |
| Publisher.NoMoreRendersThanSignals | crates/gh-report/src/app/collect.rs:2994-3112 | In every run, renders started plus what is still held to pay for renders never exceed the signals and ticks that arrived. |
| Publisher.HoldDownHolds | crates/gh-report/src/app/collect.rs:3042-3112 | At every point after a render of the loop completed, the time and the deadline respect the hold-down counted from it. |
| Publisher.RendersAreSpaced | crates/gh-report/src/app/collect.rs:3042-3112 | Every render the loop starts, starts at least the hold-down after each earlier one completed. |
| Publisher.AtMostOneRenderOnceStoppingIsObserved | crates/gh-report/src/app/collect.rs:2994-3040 | Once the loop decides with stopping observed, at most one more render starts. |
| Publisher.AtMostTwoFinishAfterShutdown | crates/gh-report/src/app/collect.rs:2994-3112 | After shutdown is sent at most two renders finish, in every run. |
| Publisher.TwoCanFinishAfterShutdown | crates/gh-report/src/app/collect.rs:3016-3112 | The bound of two is reached: one render in flight across the shutdown, and the flush. |
| Publisher.FlushNeverWaits | crates/gh-report/src/app/collect.rs:3016-3040 | From the exit decision at most three steps lead to the flush; which step is enabled never depends on time or deadline. |
| Publisher.RememberedSignalIsServiceable | crates/gh-report/src/app/collect.rs:3042-3112 | In every reachable state of the running loop a remembered signal can be rendered within the hold-down without further signals. |
| Publisher.IdleSignalRendersAtOnce | crates/gh-report/src/app/collect.rs:3062-3101 | A signal to an idle publisher starts a render at once. |
| Publisher.SignalInHoldDownMarksDirty | crates/gh-report/src/app/collect.rs:3062-3105 | A signal during the hold-down marks the report dirty and leaves the deadline. |
| Publisher.HoldDownEnds | crates/gh-report/src/app/collect.rs:3062-3110 | At the end of the hold-down a dirty publisher renders and a clean one becomes idle. |
| Publisher.ShutdownLeaves | crates/gh-report/src/app/collect.rs:2994-3014 | A decision made when stopping is set, or on an observed shutdown, leaves the loop. |
| Publisher.ShutdownCanFinish | crates/gh-report/src/app/collect.rs:3016-3112 | A waiting loop that is told to shut down can finish in at most five steps without time passing, flushing iff a signal is remembered. |
| Publisher.TheLoopMakesLegalRuns | crates/gh-report/src/app/collect.rs:3042-3112 | Whatever the environment does, the loop's actions form a legal run that ends waiting or done, and the renders it counts are those that finish in it. |
| Publisher.TurnsAreLived | crates/gh-report/src/app/collect.rs:3062-3111 | Every turn of a script is gone through: the environment acts, an enabled branch is taken and decided on, and the loop goes on from where that leads. |
| Publisher.AwaitEvent | crates/gh-report/src/app/collect.rs:3062-3075 | The select yields the event of a branch that is ready, consuming what the branch consumes, and else waits; what happened meanwhile is recorded. |
| Publisher.LiveTurn | crates/gh-report/src/app/collect.rs:3062-3111 | One turn of the loop takes exactly the actions of the state machine, leads where it leads, and completes as many renders. |
| Publisher.RunPartialPublisher | crates/gh-report/src/app/collect.rs:3042-3112 | The loop, run on any script of turns, takes exactly the actions of a run of the state machine and completes its renders. |
| Publication.OldestIsWorst | crates/gh-report/src/app/collect.rs:2244-2255 | A capture time is malformed iff some observation is, is a time iff all are, and is then the least of them. |
| Publication.CaptureTimeIsTheWorst | crates/gh-report/src/app/collect.rs:2236-2255 | The capture time of a repository, check by check: malformed iff some observed stamp is, a time iff something is observed and all stamps parse, and then the least of them. |
| Publication.EvidenceState.constructor | crates/gh-report/src/app/collect.rs:2684-2719 | Nothing is published, served or announced at first. |
| Publication.EvidenceState.CommitCachedPages | crates/gh-report/src/app/collect.rs:2679-2753 | The candidate is admitted iff nothing or a warm start is on display or it may follow the publication; then its pages are served, and otherwise the retained report's, rendered again if that succeeded; subscribers are sent all page paths iff path set or etags changed; the page count is returned. |
| Publication.EvidenceState.CommitAll | crates/gh-report/src/app/collect.rs:2679-2719 | Committing candidates one after the other publishes the report that the theorems about runs speak of. |
| Publication.SameEtagsMeansNoChange | crates/gh-report/src/app/collect.rs:2726-2737 | The comparison by page count and etags holds iff the two caches have the same etag for every path. |
| Publication.PreservesIff | crates/gh-report/src/app/collect.rs:2310-2389 | One quality preserves another iff it is of the same kind and source and not behind, loses nothing without a witnessed deletion, completes what was complete, keeps a known inventory and, where captures have no order, has nothing older unless it is the same. |
| Publication.GuardIsBypassedIffWarmStart | crates/gh-report/src/app/collect.rs:2689-2719 | Some candidate can replace a publication without preserving it iff that publication is a warm start. |
| Publication.NoWarmStartAmongCandidates | crates/gh-report/src/app/collect.rs:2684-2719 | A run shows no warm start when neither its start nor any candidate is one. |
| Publication.ReportReplacesItself | crates/gh-report/src/app/collect.rs:2310-2389 | A quality preserves itself iff its live token, if any, belongs to its projection. |
| Publication.FullCaptureIsAdmitted | crates/gh-report/src/app/collect.rs:2267-2389 | A later capture of the same projection that reports complete, or witnesses the deletion of, everything protected is admitted. |
| Publication.UnorderedCaptureIsAdmitted | crates/gh-report/src/app/collect.rs:2349-2389 | Without an order a capture with a known inventory that reports everything protected complete and no older, be it of the same time, is admitted. |
| Publication.CompleteRepositoryStays | crates/gh-report/src/app/collect.rs:2310-2366 | In runs without warm starts a complete repository stays present and complete until an admitted candidate's token witnesses its deletion. |
| Publication.RostersAndInventoryStay | crates/gh-report/src/app/collect.rs:2310-2389 | Protected rosters never disappear or lose completeness, and a known inventory stays known. |
| Publication.ProjectionOrderIsKept | crates/gh-report/src/app/collect.rs:2310-2348 | Ordered and unordered provenance never mix in a run, and the projection token never goes backwards. |
| Publication.LiveOrderIsKept | crates/gh-report/src/app/collect.rs:2322-2347 | From a live publication with a protected roster, or in a run that offers no plain projection, every later publication is live and its live token never goes backwards. |
| Publication.LiveOrderIsKeptIff | crates/gh-report/src/app/collect.rs:2322-2347 | In all runs from a live publication every later live one is at least as recent iff it protects a roster or stands at sequence zero. |
| Publication.LiveOrderIsLostThroughAProjection | crates/gh-report/src/app/collect.rs:2341-2347 | Through an intermediate plain projection the live token can go backwards. |
| Publication.RecencyComposes | crates/gh-report/src/app/collect.rs:2257-2263 | Not being older, with equal content as the exception, is transitive for qualities computed from evidence. |
| Publication.UnorderedRunsKeepRecency | crates/gh-report/src/app/collect.rs:2349-2389 | In an unordered run nothing protected is ever lost or replaced by an older capture. |
| Publication.HonestRepositories | crates/gh-report/src/app/collect.rs:2271-2289 | The protected repositories are exactly the observed ones, under their own key, with their completeness and capture time. |
| Publication.HonestRosters | crates/gh-report/src/app/collect.rs:2290-2307 | The protected rosters are exactly the complete ones, under their owner, with their capture time. |
| Publication.ProtectedRepository | crates/gh-report/src/app/collect.rs:2271-2289 | A key is protected iff an observed repository has it, by the last such entry, complete iff every check of it reached a conclusion. |
| Publication.ProtectedRoster | crates/gh-report/src/app/collect.rs:2290-2307 | An owner is protected iff a complete roster of it is reported, by the last such roster, with the time its stamp parses to. |
| Publication.EvidenceIsHonest | crates/gh-report/src/app/collect.rs:2267-2308 | Every quality computed from evidence carries the capture times of its contents, and its inventory flag and provenance. |
| Publication.CompleteIsProtected | crates/gh-report/src/domain/evidence.rs:16-124 | A repository reported complete is protected as complete; one protected as complete is reported complete. |
| Publication.CompleteReportStays | crates/gh-report/src/app/collect.rs:2267-2389 | A repository reported complete is reported complete by every later publication until a deletion of it is witnessed. |
| Domain.ObservedTimestampsAre | crates/gh-report/src/domain/evidence.rs:43-70 | A time stamp is among the observed ones iff one of the five checks was observed with it. |
| Domain.IsObservedIff | crates/gh-report/src/domain/evidence.rs:24-41 | A repository counts as observed iff some check of it was observed. |
| Domain.IsCompleteIff | crates/gh-report/src/domain/evidence.rs:108-124 | A repository is complete iff every check reached a conclusion; a denied permission is one for secret scanning alone. |
| Inventory.FindPayloadDifference | crates/gh-report/src/app/collect.rs:1856-1912 | No difference is found iff the two repositories are equal in all fields. |
| Inventory.FindsTheFirstDifference | crates/gh-report/src/app/collect.rs:1856-1912 | The difference found between unequal repositories is the first of the eighteen fields, in order, on which they differ. |
| Inventory.MatchPrior | crates/gh-report/src/app/collect.rs:1922-1943 | A prior entry found by id or key shares an identity; finding two different ones is reported as a conflict of exactly those. |
| Inventory.IsRepetition | crates/gh-report/src/app/collect.rs:1921-1959 | A repository is a repetition of an accepted entry, has a fresh id and key, or is refused with an error that names a real conflict of it with earlier entries and the first differing field. |
| Inventory.ValidateAndDeduplicate | crates/gh-report/src/app/collect.rs:1914-1962 | Validation succeeds iff any two entries that share an id or a key are equal; it returns the first occurrences; an error explains the first entry that conflicts with earlier ones. |
| Inventory.FirstOccurrences | crates/gh-report/src/app/collect.rs:1914-1962 | The deduplicated entries are distinct and have the same elements as the payload. |
| Inventory.UniqueIdentities | crates/gh-report/src/app/collect.rs:1914-1962 | Accepted entries have pairwise distinct ids and inventory keys. |
| Inventory.FirstOccurrencesInOrder | crates/gh-report/src/app/collect.rs:1914-1962 | Accepted entries stand in the order of their first occurrence. |
| Inventory.ValidateAndAdmit | crates/gh-report/src/app/collect.rs:1700-1764 | Validate and admit succeeds iff the payload is consistent, with the admission of its first occurrences. |
| Inventory.AdmitsTheSmallestIds | crates/gh-report/src/app/collect.rs:1741-1764 | The admitted repositories are exactly the configured number of lexicographically smallest ids of the payload, sorted; the cap is reported iff it cut; completeness and time stamp are the payload's. |
| Inventory.TotalsCountTheDistinct | crates/gh-report/src/app/collect.rs:1700-1764 | The totals are the number of distinct entries of the payload and, up to the 32-bit limit, of the archived ones among them. |
| Inventory.PageOrderIsIrrelevant | crates/gh-report/src/app/collect.rs:1700-1764 | Any permutation of the payload succeeds or fails alike and is admitted as the same inventory, totals included. |
| Inventory.AuthorityIffTrustworthy | crates/gh-report/src/app/collect.rs:1819-1829 | Deletion is authorised iff the inventory is complete, uncapped and not empty, and then spares every key of the payload. |
| Inventory.ReconcileDeleted | crates/gh-report/src/app/collect.rs:1978-2014 | Without authority nothing changes; otherwise the disappeared keys are deleted in order up to the first write that fails, whichever it is, and its key is reported. |
| Inventory.FilterUnlisted | crates/gh-report/src/app/collect.rs:1993-1997 | The keys to delete are those of the snapshot that the inventory does not list, in snapshot order. |
| Inventory.DeleteAll | crates/gh-report/src/app/collect.rs:1998-2013 | The projection becomes the fold of the deletions made; the run stops at the first failing write. |
| Inventory.FoldDeletions | crates/gh-report/src/projection.rs:167-180 | Folding deletions removes exactly their keys and touches neither teams nor the organisation. |
| Inventory.FoldDeletionRecords | crates/gh-report/src/projection.rs:167-180 | Each deleted key gets its own record; the other records stay. |
| Inventory.DeletesExactlyTheDisappeared | crates/gh-report/src/app/collect.rs:1978-2014 | With every write accepted, reconciliation deletes exactly the projected keys that are not listed and records each. |
| Inventory.DeletionIsSafeAtEveryWrite | crates/gh-report/src/app/collect.rs:1978-2014 | Wherever reconciliation stops, every listed repository is as it was, and each one that is gone was not listed and is recorded. |
| Assurance.OnlyDeletionRemovesFromTheReport | crates/gh-report/src/app/collect.rs:2310-2366 | A repository reported complete leaves a later report only if some capture was taken from a log in which it stood deleted. |
| Assurance.ReconciliationSparesTheListed | crates/gh-report/src/app/collect.rs:1978-2014 | Reconciling a projection folded from any log keeps exactly the listed repositories, unchanged, and leaves live and deleted disjoint. |
| Glob.CollapseAndMatch | crates/gh-report/src/pattern_match.rs:76-90 | The loop says yes iff the pattern matches and the bytes that are no star behind a star fit the depth. |
| Glob.FnmatchIsExact | crates/gh-report/src/pattern_match.rs:98-125 | The byte engine says yes iff the pattern matches and its length fits the depth that is left. |
| Glob.CollapseKeepsLanguage | crates/gh-report/src/pattern_match.rs:76-90 | Collapsing stars preserves the language of the pattern. |
| Glob.CollapseKeeps | crates/gh-report/src/pattern_match.rs:76-90 | The collapsed pattern has one byte for each that is no star behind a star, and no star follows a star in it. |
| Glob.SegmentIsExact | crates/gh-report/src/pattern_match.rs:76-90 | A segment matches iff its bytes that are no star behind a star fit the byte depth and the pattern matches. |
| Glob.SegmentsAreExact | crates/gh-report/src/pattern_match.rs:28-69 | The segment engine says yes iff the segment lists match within both cut-offs. |
| Glob.PathPatternIsExact | crates/gh-report/src/pattern_match.rs:18-69 | A path pattern is found to match iff its segments match, each but `**` collapses to at most the byte depth, and there are at most 64 of them, or 65 when the last is `**`. |
| Glob.SplitIsExact | crates/gh-report/src/pattern_match.rs:18-22 | Splitting at slashes loses nothing and leaves no slash in a piece. |
| Glob.SplitJoin | crates/gh-report/src/pattern_match.rs:18-22 | A path has one division into slash-free segments. |
| Glob.PlainSegmentsPairUp | crates/gh-report/src/pattern_match.rs:28-69 | Without `**` segments match one to one: nothing else crosses a slash. |
| Workflow.ReadMapping | tools/workflow_subset.py:58-71 | The mapping loop computes the entries and the position of the recursive parser, or its error. |
| Workflow.ReadNode | tools/workflow_subset.py:73-85 | The node loop computes the mapping or list of steps of the recursive parser, or its error. |
| Workflow.Load | tools/workflow_subset.py:87-92 | Loading yields a supported tree whose flattening is the whole input, or a truthful error for an input that is no flattening. |
| Workflow.ParseFlattened | tools/workflow_subset.py:58-85 | The parser finds a flattened mapping again and stops behind it. |
| Workflow.FlattenParsed | tools/workflow_subset.py:58-85 | A parsed mapping is supported, has no duplicate key, and flattens to exactly the tokens consumed. |
| Workflow.ParseOfFlatten | tools/workflow_subset.py:17-92 | Flattening any supported non-empty tree and loading it returns that tree. |
| Workflow.FlattenOfParse | tools/workflow_subset.py:17-92 | Whatever loads is a supported tree without duplicate keys whose flattening is the input. |
| Workflow.AcceptsIffFlattened | tools/workflow_subset.py:17-92 | The reader accepts exactly the flattenings of supported trees. |
| Workflow.ErrorsAreTruthful | tools/workflow_subset.py:58-92 | What is refused gives reason for its error: a repeated key, a node nested too deeply or indented wrongly, a step without scalar, an empty workflow, or tokens left over. |
| Slab.Heap.constructor | crates/gh-report/templates/gh-report-web-client.js:497-500 | The slab starts with the 1028 reserved slots, no live handle and no free slot. |
| Slab.Heap.AddHeapObject | crates/gh-report/templates/gh-report-web-client.js:443-450 | A new handle aliases no live one, is never reserved, reads back its object, takes the first free slot, and the array grows only when there is none. |
| Slab.Heap.DropObject | crates/gh-report/templates/gh-report-web-client.js:456-460 | Dropping frees exactly that slot, to be reused first; reserved handles are left alone. |
| Slab.Heap.GetObject | crates/gh-report/templates/gh-report-web-client.js:487-487 | A live handle reads back its object, a reserved one its constant: undefined below 1025, then null, true and false. |
| Slab.Heap.TakeObject | crates/gh-report/templates/gh-report-web-client.js:571-575 | Taking returns the object and frees the handle. |
| Slab.FreeListIsDetermined | crates/gh-report/templates/gh-report-web-client.js:443-460 | The array and its head determine the free list. |
| Slab.FreeListIsAcyclic | crates/gh-report/templates/gh-report-web-client.js:443-460 | A free list that reaches the end of the array visits no slot twice. |
| Slab.DropKeepsTheListIff | crates/gh-report/templates/gh-report-web-client.js:456-460 | Dropping a slot leaves a free list iff the slot is not free already. |
| EventStore.BuildEnvelopes | crates/gh-report/src/app/ephemeral_store.rs:51-87 | Building yields one envelope per event with its payload, numbered on from the start under the aggregate, or the error of the first event that fails. |
| EventStore.BuildFailsIff | crates/gh-report/src/app/ephemeral_store.rs:51-87 | Building fails iff a sequence leaves the 64-bit range or some event is refused. |
| EventStore.BuildErrorIsFirst | crates/gh-report/src/app/ephemeral_store.rs:51-87 | The error of a batch is that of its first event that leaves the 64-bit range or is refused, and names which of the two. |
| EventStore.EphemeralEventStore.constructor | crates/gh-report/src/app/ephemeral_store.rs:32-43 | The store starts empty with 1 as its next id. |
| EventStore.EphemeralEventStore.LoadStream | crates/gh-report/src/app/ephemeral_store.rs:96-105 | Loading returns the stored stream, empty if there is none, or corrupt data iff it is not numbered 1 to n under its own id. |
| EventStore.EphemeralEventStore.CreateStream | crates/gh-report/src/app/ephemeral_store.rs:111-138 | Creating takes the next id and stores one envelope per event, or fails with the source's error and stores nothing; a refused batch still uses up its id. |
| EventStore.EphemeralEventStore.AppendTo | crates/gh-report/src/app/ephemeral_store.rs:144-183 | Appending extends the stream by one envelope per event iff the expected sequence is the stream's last; otherwise nothing changes and the error is the source's, in the source's order. |
| EventStore.PerformKeepsSound | crates/gh-report/src/app/ephemeral_store.rs:96-183 | Every operation keeps all streams sound; a failed one changes no stream; streams only grow. |
| EventStore.CreateKeepsSound | crates/gh-report/src/app/ephemeral_store.rs:111-138 | A create adds exactly one new stream under the next id, or none. |
| EventStore.AppendKeepsSound | crates/gh-report/src/app/ephemeral_store.rs:144-183 | An append changes exactly its own stream, by exactly its batch, or nothing. |
| EventStore.ReachableIsSound | crates/gh-report/src/app/ephemeral_store.rs:51-183 | In every reachable state streams are non-empty, numbered 1 to n under their own id, and within 64 bits. |
| EventStore.HistoryGrows | crates/gh-report/src/app/ephemeral_store.rs:107-183 | Between any two points of a run every stream is extended, never rewritten. |
| EventStore.IdsAreNeverReissued | crates/gh-report/src/app/ephemeral_store.rs:111-138 | A later create gets a greater id than an earlier one. |
| EventStore.AtMostOneAppendWins | crates/gh-report/src/app/ephemeral_store.rs:144-183 | Of the non-empty appends of a run that expect one sequence on one aggregate at most one succeeds. |
| EventStore.CreateIsExact | crates/gh-report/src/app/ephemeral_store.rs:111-138 | A create succeeds iff there are events, an id and sequences are left and no event is refused; it stores all events in order, and a refused batch still uses up its id. |
| EventStore.AppendIsExact | crates/gh-report/src/app/ephemeral_store.rs:144-183 | An append succeeds iff the stream exists, the expectation is current, no event is refused and the range suffices; then it adds the whole batch and nothing else. |
| EventStore.StaleAppendConflicts | crates/gh-report/src/app/ephemeral_store.rs:144-183 | A non-empty append to an existing stream conflicts iff its expectation is not the length of the stream, and the error names stream, expectation and length. |
| EventStore.ReadYourWrites | crates/gh-report/src/app/ephemeral_store.rs:96-183 | At any point of any run a load succeeds and returns exactly the payloads of the successful create and of all successful appends to that aggregate, in order, numbered from 1. |
| Metrics.CountPolicyStatuses | crates/gh-report/src/aggregate/metrics.rs:424-453 | The policy counters are the saturated numbers of positions of policies by setting, by file, absent, and unread or inapplicable. |
| Metrics.CountStatuses | crates/gh-report/src/aggregate/metrics.rs:460-469 | The generic counting loop classifies every repository once, from empty counters. |
| Metrics.CounterIsTally | crates/gh-report/src/aggregate/metrics.rs:460-469 | A counter that is bumped exactly for one status ends as that status's saturated tally. |
| Metrics.TallyIsPositions | crates/gh-report/src/aggregate/metrics.rs:460-469 | A tally over a population is the number of positions of the list that are in it and have the status. |
| Metrics.ScanningCountsAreTallies | crates/gh-report/src/aggregate/metrics.rs:471-484 | The secret-scanning counters are the saturated numbers of positions of each status. |
| Metrics.DependabotCountsAreTallies | crates/gh-report/src/aggregate/metrics.rs:487-496 | The Dependabot counters are the saturated numbers of positions of each status. |
| Metrics.BranchCountsAreTallies | crates/gh-report/src/aggregate/metrics.rs:633-648 | The branch-protection counters are the saturated numbers of positions of each status. |
| Metrics.CodeownersCountsAreTallies | crates/gh-report/src/aggregate/metrics.rs:651-667 | The CODEOWNERS counters are the saturated numbers of positions of each status, and of the truncated files. |
| Metrics.CountBranchExclusions | crates/gh-report/src/aggregate/metrics.rs:292-300 | The two exclusion counters are the saturated numbers of positions denied or suspected and of the other unobservable ones, and a measurement failure is reported iff some repository was not observable. |
| Metrics.CountSecretAlerts | crates/gh-report/src/aggregate/metrics.rs:680-698 | The alert counters are the saturated numbers of positions with open alerts, without, and with neither known. |
| Metrics.AlertBucketsPartition | crates/gh-report/src/aggregate/metrics.rs:680-720 | The alert buckets partition the active repositories, and the two observed ones are the prevalence denominator. |
| Metrics.EligibleIsMetOrUnmet | crates/gh-report/src/aggregate/metrics.rs:927-964 | In a drill-down the eligible are the met and the unmet. |
| Metrics.DrillDownOne | crates/gh-report/src/aggregate/metrics.rs:772-935 | A kind of membership that one status yields is counted by that status's tally over the control's population. |
| Metrics.DrillDownTwo | crates/gh-report/src/aggregate/metrics.rs:772-935 | The same for a kind of membership that two statuses yield. |
| Metrics.PolicyNumbers | crates/gh-report/src/aggregate/metrics.rs:772-794 | For the policy, met, unmet and excluded repositories are those behind the policy counters. |
| Metrics.ScanningNumbers | crates/gh-report/src/aggregate/metrics.rs:772-808 | For secret scanning, met, unmet and excluded repositories are those behind its counters. |
| Metrics.DependabotNumbers | crates/gh-report/src/aggregate/metrics.rs:772-817 | For Dependabot, met, unmet and excluded repositories are those behind its counters. |
| Metrics.CodeownersNumbers | crates/gh-report/src/aggregate/metrics.rs:772-826 | For CODEOWNERS, met, unmet and excluded repositories are those behind its counters. |
| Metrics.BranchDrillDown | crates/gh-report/src/aggregate/metrics.rs:772-848 | For branch protection, met and unmet repositories are those behind its counters, and some is excluded iff some was not observable. |
| Metrics.MetricAgrees | crates/gh-report/src/aggregate/metrics.rs:254-261 | A metric built from saturated pass and fail counts and a truthful tally is the one the drill-down predicts. |
| Metrics.CountIsPositions | crates/gh-report/src/aggregate/metrics.rs:772-964 | What a drill-down counts is the number of positions of the repositories of that kind. |
| Metrics.DrillDownIsRate | crates/gh-report/src/aggregate/metrics.rs:254-261 | The drill-down predicts met over met and unmet, counted by positions, or 0/1 when there are none and some was excluded. |
| Metrics.ScanningReasonsAgree | crates/gh-report/src/aggregate/metrics.rs:333-351 | Counters and drill-down exclude the same repositories for a denied permission and as unknown: those whose scanning was not observable, by whether it was denied. |
| Metrics.BranchReasonsAgree | crates/gh-report/src/aggregate/metrics.rs:292-300 | Exclusion tally and drill-down agree on which active repositories could not be scored for a denied or suspected permission, and which for another reason. |
| Metrics.InapplicablePoliciesAreTold | crates/gh-report/src/aggregate/metrics.rs:772-794 | The drill-down tells inapplicable policies from unread ones, which the counters add up. |
| Metrics.ExcludedByReason | crates/gh-report/src/aggregate/metrics.rs:781-848 | Every exclusion has one of three reasons; denial concerns secret scanning and branch protection only, inapplicability the policy only. |
| Metrics.PopulationInOrder | crates/gh-report/src/aggregate/metrics.rs:920-935 | The drill-down lists repositories in input order. |
| Metrics.PopulationAlone | crates/gh-report/src/aggregate/metrics.rs:772-779 | A repository is in scope iff it is public, for the policy, and iff it is not archived, for the other controls. |
| Metrics.SecurityPolicyCoverage | crates/gh-report/src/aggregate/metrics.rs:311-331 | Policy coverage is public repositories with a policy over those with and without one, counted by positions, with the floor; so does its drill-down predict. |
| Metrics.SecretScanningCoverage | crates/gh-report/src/aggregate/metrics.rs:333-351 | Secret-scanning coverage is active repositories with scanning enabled over those enabled and disabled, with the floor; so does its drill-down predict. |
| Metrics.DependabotCoverage | crates/gh-report/src/aggregate/metrics.rs:353-368 | Dependabot coverage is active repositories with it enabled over those enabled, paused and disabled, with the floor; so does its drill-down predict. |
| Metrics.CodeownersCoverage | crates/gh-report/src/aggregate/metrics.rs:399-415 | CODEOWNERS coverage is active repositories with a file, conforming or not, over those with and without, with the floor; so does its drill-down predict. |
| Metrics.BranchProtectionCoverage | crates/gh-report/src/aggregate/metrics.rs:382-397 | Branch-protection coverage is active protected repositories over protected and unprotected ones, with the floor; so does its drill-down predict. |
| Metrics.OpenSecretAlertPrevalence | crates/gh-report/src/aggregate/metrics.rs:370-380 | The prevalence is the active repositories with open alerts over those whose alerts were read, counted by positions; its numerator never exceeds its denominator. |
| Metrics.AggregateCoverage | crates/gh-report/src/aggregate/metrics.rs:91-129 | All five controls are those rates and agree with their drill-downs at once. |
| Metrics.FloorIsAsDocumentedIff | crates/gh-report/src/aggregate/metrics.rs:244-268 | The 0/1 floor is taken as documented iff the population is not made of inapplicable repositories alone; only the policy can be inapplicable. |
| Metrics.InapplicableTakesTheFloor | crates/gh-report/src/aggregate/metrics.rs:424-453 | One public repository to which the policy does not apply takes the 0/1 floor, which the documentation does not allow. |
| Codeowners.CollectOwners | crates/gh-report/src/collector/codeowners_parser.rs:58-76 | An entry's owners are the tokens that start with `@`, sorted, each once. |
| Codeowners.ReadLine | crates/gh-report/src/collector/codeowners_parser.rs:36-76 | A line is skipped when too long, ignored when blank or a comment, and otherwise parsed to its entry. |
| Codeowners.AddOwners | crates/gh-report/src/collector/codeowners_parser.rs:78-83 | The seen-set and the list of unique owners follow the owners read so far, up to case. |
| Codeowners.ParseCodeowners | crates/gh-report/src/collector/codeowners_parser.rs:30-96 | The line loop computes the entries, the first-seen owners of all entries, and the saturated number of skipped lines. |
| Codeowners.LineEndings | crates/gh-report/src/collector/codeowners_parser.rs:36-36 | A line ends at a newline, with or without a carriage return before it, or at the end of the file. |
| Codeowners.BytesByCodePoint | crates/gh-report/src/collector/codeowners_parser.rs:37-37 | The length of a line is its UTF-8 length: a byte for each character and one more from each of the three code-point limits on. |
| Codeowners.LineIsReadIff | crates/gh-report/src/collector/codeowners_parser.rs:36-60 | A line is skipped iff it is longer than 10240 bytes, ignored iff it is blank or its first visible character is a hash, and otherwise has an entry. |
| Codeowners.EntryIsOfItsLine | crates/gh-report/src/collector/codeowners_parser.rs:48-76 | An entry has the first token as pattern and as owners the later tokens with an `@` in front, strictly sorted. |
| Codeowners.EntriesFollowTheLines | crates/gh-report/src/collector/codeowners_parser.rs:36-89 | The entries are those of the lines that have one, each once, in line order. |
| Codeowners.LongLinesAreCounted | crates/gh-report/src/collector/codeowners_parser.rs:36-46 | The number of skipped lines is that of the lines longer than 10240 bytes, up to the 32-bit limit. |
| Codeowners.FirstSeenIsExact | crates/gh-report/src/collector/codeowners_parser.rs:78-83 | No two unique owners are equal up to case, every owner is covered, and they stand in first-seen order. |
| Codeowners.DedupSorted | crates/gh-report/src/collector/codeowners_parser.rs:75-76 | Dropping adjacent repetitions of a sorted list leaves it strictly sorted with the same elements. |
| Codeowners.SortedOwnersAreExact | crates/gh-report/src/collector/codeowners_parser.rs:62-76 | An entry's owners are strictly sorted and are exactly the tokens whose first character is `@`. |
| Codeowners.CommentStartIsFirst | crates/gh-report/src/collector/codeowners_parser.rs:98-111 | A comment is found at the first hash that a space or tab precedes. |
| Codeowners.InlineCommentIsIgnored | crates/gh-report/src/collector/codeowners_parser.rs:36-111 | Adding an inline comment to any line, within the length limit, does not change how it is read. |
| Codeowners.ParsedIsWellFormed | crates/gh-report/src/collector/codeowners_parser.rs:30-111 | Every parsed entry is well formed, and its rewritten line fits the 10 KB limit. |
| Codeowners.FormattedIsParsed | crates/gh-report/src/collector/codeowners_parser.rs:30-111 | Every well-formed entry is read back from its line. |
| Codeowners.ParseOfRewrite | crates/gh-report/src/collector/codeowners_parser.rs:30-111 | Any list of well-formed entries is what parsing its rewritten file gives, with nothing skipped. |
| Codeowners.NormalForm | crates/gh-report/src/collector/codeowners_parser.rs:30-111 | Rewriting what was parsed and parsing again gives the same entries and owners and skips nothing. |
| Cfg.ParseWritten | crates/non-exhaustive-check/src/main.rs:167-219 | The fused parser finds a written predicate, stops behind it, and returns its three-valued value. |
| Cfg.WriteParsed | crates/non-exhaustive-check/src/main.rs:167-219 | What the fused parser accepts is a written predicate, and its verdict is the value of the tree. |
| Cfg.ReaderIsExact | crates/non-exhaustive-check/src/main.rs:167-233 | The reader accepts exactly the written predicates, consuming them whole, with the value of the tree as verdict. |
| Cfg.VerdictIsSound | crates/non-exhaustive-check/src/main.rs:161-219 | A definite verdict is right in every build without test, whatever the other options are. |
| Cfg.VerdictIsExactApart | crates/non-exhaustive-check/src/main.rs:161-219 | For every predicate the verdict is definite iff its value does not depend on the builds, even when evenly and oddly negated options are looked up in different ones. |
| Cfg.VerdictIsExactWhenOneSigned | crates/non-exhaustive-check/src/main.rs:161-219 | For predicates that read no option both under an even and under an odd number of `not`s the verdict is definite iff all builds without test agree. |
| Cfg.ReadTwiceWithOneSign | crates/non-exhaustive-check/src/main.rs:161-219 | Predicates that read an option repeatedly are among them. |
| Cfg.BothSignsHideCertainty | crates/non-exhaustive-check/src/main.rs:161-219 | A predicate that reads an option both ways can hold in every build and still be unknown. |
| Cfg.CollectEnums | crates/non-exhaustive-check/src/main.rs:139-154 | The collecting loop appends exactly the enums reached through modules that no attribute disables, in order. |
| Cfg.AnyDisabledIff | crates/non-exhaustive-check/src/main.rs:221-233 | Some attribute counts as disabling iff one is a cfg attribute that denotes a predicate which evaluates to false. |
| Cfg.CollectedIff | crates/non-exhaustive-check/src/main.rs:139-154 | An enum is collected iff it is reached through modules none of which has such an attribute. |
| Cfg.CollectedInOrder | crates/non-exhaustive-check/src/main.rs:139-154 | Enums are collected in the order of the items. |
| Cfg.CollectedAlone | crates/non-exhaustive-check/src/main.rs:139-154 | An enum contributes itself, a module that nothing disables what its content contributes, and any other item nothing. |
| Cfg.ExcludedModulesContributeNothing | crates/non-exhaustive-check/src/main.rs:139-233 | A module excluded from all builds without test by a predicate that reads no option both ways contributes nothing. |
| Cfg.IsViolationIff | crates/non-exhaustive-check/src/main.rs:253-273 | A violation is a closed error enum none of whose own attributes disables it. |
| Cfg.DisabledIsExcluded | crates/non-exhaustive-check/src/main.rs:139-154 | What is skipped as disabled is excluded from every build without test. |
| Cfg.PresentViolationsAreReported | crates/non-exhaustive-check/src/main.rs:139-273 | Every closed error enum compiled in some build without test is collected and reported. |
| TableSort.TotalPreorderIff | crates/gh-report-web-client/src/sort.rs:86-170 | In both directions and for every sort type the comparator is a total preorder, except exactly for numeric columns with a NaN among numbers that differ. |
| TableSort.ComparesAsDocumentedIff | crates/gh-report-web-client/src/sort.rs:86-145 | Two cells compare as documented iff no unparsed one stands beside a NaN, or beside a negative infinity that its text does not precede. |
| TableSort.WordBesideNotAvailable | crates/gh-report-web-client/src/sort.rs:86-145 | A word that is documented to come after `N/A` comes before it. |
| TableSort.SortIsStable | crates/gh-report-web-client/src/dom.rs:192-222 | The sort holds every row once, ordered by the comparator, equal rows in their old order. |
| TableSort.SortIsStableAndUnique | crates/gh-report-web-client/src/dom.rs:192-222 | A row order is a stable sorted order iff it is the one the sort computes. |
| TableSort.SortKeepsEveryRow | crates/gh-report-web-client/src/dom.rs:192-222 | Every row stands in the sorted order exactly once. |
| TableSort.TextColumnsFollowTheDirection | crates/gh-report-web-client/src/sort.rs:159-170 | Date and text columns rise when ascending and fall when descending in the lexicographic order, equal cells in the order of their rows. |
| TableSort.NumericColumnsFollowTheDirection | crates/gh-report-web-client/src/sort.rs:159-170 | Numeric columns rise when ascending and fall when descending, rows that compare equal in their old order. |
| TableSort.NumericIsLessIff | crates/gh-report-web-client/src/sort.rs:86-102 | A cell is less in number iff it is in a lower band (no number, negative infinity, finite, positive infinity), a lesser finite number, or a lesser text among those that are none. |
| TableSort.StatusColumnsKeepIndeterminateLast | crates/gh-report-web-client/src/sort.rs:126-133 | In both directions indeterminate rows come last in their old order and known rows follow the direction. |
| Ordering.CompareTextReverses | crates/gh-report-web-client/src/sort.rs:159-170 | Comparing texts the other way round gives the opposite order, and only equal texts compare equal. |
| Ordering.CompareTextTransitive | crates/gh-report-web-client/src/sort.rs:159-170 | The comparison of texts is transitive. |
| Ordering.CompareTextIsLexicographic | crates/gh-report-web-client/src/sort.rs:168-168 | One text is less than another iff from some position on, behind a common start, it ends first or has the smaller character. |
| Ordering.InsertionSortSorted | crates/gh-report-web-client/src/dom.rs:201-222 | Sorting by a total preorder gives a sorted sequence with the same elements. |
| Ordering.StrictlySortedUnique | crates/gh-report/src/app/collect.rs:1741-1764 | Two strictly sorted sequences with the same elements are equal. |

## Left out

- The collection of evidence: GitHub requests, credentials, lock files, logging, rendering of pages and their compression, the WebSocket transport.
- The sweep-timeout scheduler, the worker pool, the budget gate and the rate limiter: their logic is in crates that are not part of this model.
- Fence latching in publishing and retiring batches: the latches are methods of the application state.
- The order of the phases of a sweep: a straight line of steps, so claims about it would be easy.
- Owner-level coverage, the collection-health taxonomy and the score exclusion counts: more counters of the same kind.
- The other readers of the projection's state: they copy.
- The detection of a column's sort type, and the parsing of numbers in cells, which is a parameter.
- The tokenizer of the workflow reader: the model starts at its tokens, so indentation checks, comments, block scalars and quoting are not covered.
- Events of the log carry their payload only; envelope metadata plays no part in the fold.
- Evidence and rosters keep the fields that the modelled code decides on; the rest of an evidence value is one opaque field, so equality still means equality of all content.
- The provenance of secret-scanning results is reduced to the alert flag and to whether permission was denied.
- Publisher.RunPartialPublisher: runs on a finite script of turns, because the loop itself need not end; the theorems about runs do not need the script.
- Publisher.AwaitEvent: the order in which the select polls ready branches is left open, so the theorems hold for every order.
- Publication.EvidenceState.CommitCachedPages: pages are opaque values with an etag, and the re-rendering of a retained report with its disclosure text is a parameter; the time stamp of an update is not modelled.
- Inventory.FindPayloadDifference: fields in errors are constructors, not their names as text.
- Inventory.ReconcileDeleted: the writes go straight to the projection and which of them fail is a parameter; the event store between them is modelled apart.
- EventStore.EphemeralEventStore.LoadStream: the stream validator of the event crate is taken to demand the stream's own id and the sequences 1 to n.
- EventStore.BuildEnvelopes: which events the envelope constructor refuses is a parameter; timestamps and correlation ids are not modelled.
- Codeowners.ParseCodeowners: strings are sequences of characters with their UTF-8 lengths, and lower-casing is a parameter.
- Cfg.CollectEnums: derive lists and non-exhaustive markers of an enum are reduced to whether it is a closed error enum.
- Only the event store models 64-bit numbers; indices and positions elsewhere are unbounded.
